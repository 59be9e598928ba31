# Ouroboot's hard core

Ouroboot holds a C compiler and linker derived from TinyCC, an RV64 emulator and a small kernel. This project models
the parts of it in which a fast or in-place form has to agree with a simple one, and proves that it does - for every
input, every reachable state or every run - or says exactly when it does not.

| modules | what they model |
|---|---|
| SymbolTable, Definitions, SymbolSection, SymbolSort | the ELF symbol table: merging of definitions, which one stands and when a second one is an error, the chained hash index, the in-place replay of a file's symbols, sorting |
| ObjectFile, Archive | merging an object's sections and symbols; loading members from an archive until nothing more is asked for |
| Align, Layout | the load image: addresses, file offsets and segments |
| Words, Sv39, PageWalk, Coherence, Mmu, FetchExample | the page walk on the numbers in memory, and the emulator's TLB and fetch cache in front of the three-level page walk (RISC-V Privileged Architecture 20211203, sections 4.3.2 and 4.4) |
| Timer | the countdown that stands for comparing the clock with stimecmp |
| Rv64, ConstLoad, AddressSums, JumpList | instruction words, what the emulator does with them, constants and jumps built from them |
| Spill | spilling registers of the value stack to the frame |
| StructLayout, Bitfield, StructAccess | layout of structs and bit-fields (C99 section 6.7.2.1), the three ways of reading and writing them, and the two together |
| Modular, Fold | constant folding and strength reduction |
| Infix | precedence climbing against the C grammar |
| Scopes | shadowing of identifiers when scopes are entered and left |
| Path | path resolution against the working directory |
| Arith | 128-bit products, 64-bit division and shifts from smaller words |

Each operation that changes state is a method of a class, or a method over an array, that is tied to a function on
values; the properties are lemmas about those functions and invariants that the methods keep. Numbers have the
source's widths: bit-vectors where instructions and addresses are taken apart, integers below 2^32 or 2^64 elsewhere,
with wrap-around written out. Where a C int overflows (the middle piece of a constant), two's complement wrap-around
is modelled, as the compilers in use produce it.

## What does not hold

The following are properties of the code that a reader would expect and that fail for some inputs; each has a lemma
or method that says exactly for which, or an example, and most have both.

- A long constant with a nonzero high word over a low word from 0x7ff80000 to 0x7fffffff is built 2^32 too small
  (`ConstLoad.ConstantIsMaterialised`, `ConstLoad.OverflowExample`).
- Jumps over 1 to 2 MiB pass the range guard but not the 21 bits of jal (`JumpList.ContinuesAtTarget`,
  `JumpList.OutOfJalRange`).
- A global identifier can vanish from the token table when a function ends, after a statement expression declared a
  local of its name (`Scopes.PopRestores`, `Scopes.LosesAGlobal`).
- A definition may be refused although it outranks the entry, and a system-specific binding may be patched by a weaker
  one (`SymbolTable.MergeTakesTheHigherRank`, `SymbolTable.RankDropsExactly`; `SymbolTable.RefusalExample`,
  `SymbolTable.DemotionExample`).
- The second segment's offset and address are congruent modulo the segment alignment only if the first segment's
  uninitialised size is a multiple of it (`Layout.LayoutExecutable`, `Layout.IncongruentExample`).
- An empty fetch cache is taken for a hit in the topmost page of the address space (`Mmu.EmptyCacheMatchesTopPage`,
  `Mmu.TopPageFaults`). A hit in the last three bytes of a page reads on in physical memory where the walk needs the
  next virtual page: it succeeds where the walk faults exactly if that page does not answer, and reads another word
  exactly if that page begins with other bytes than those behind the frame (`Mmu.Machine.FetchWord`,
  `Mmu.FetchOverEnd`; `FetchExample.FetchPastThePage`). The program counter gets there because sret takes it from sepc
  as it is, odd or even (emulator/rv64.c:238, emulator/rv64.c:298).
- The countdown stays silent after a taken interrupt until stimecmp is rewritten or rv_run is called again, where a
  comparison at every step would fire again, so that the guest can tell how its run is divided into calls
  (`Timer.AgreesExactly`, `Timer.SeenExactly`, `Timer.TwoCallsAreOne`, `Timer.LatchExample`).
- Entries that share a register are saved in the slot of the lowest. One that is wider than that, or that has as its
  first register the second register of a two-word value, or another second register, is read back wrong
  (`Spill.MeaningKeptExactly`, `Spill.StackKeptExactly`, `Spill.RunKeptExactly`; `Spill.NarrowExample`,
  `Spill.SecondRegisterExample`).
- A logical right shift of a negative signed 32-bit constant is folded as an arithmetic shift, unless its count is a
  multiple of 32. The code that stores packed bit-fields asks for such shifts (compiler/expr.c:58) and masks the bits
  that differ (`Fold.ConstantsFold`, `Fold.GenOpic`; `Fold.ShiftExample`).
- Strength reduction of the division of a pointer difference rounds down where division truncates; the two agree for
  exact multiples (`Fold.ShiftDifference`).

## Model

| member | source | states |
|---|---|---|
| SymbolTable.Find | compiler/tccelf.c:441-462 | The answer of a lookup, without the index: 0 exactly when no non-local entry has the name, otherwise one that has it |
| SymbolTable.MergeTakesTheHigherRank | compiler/tccelf.c:482-560 | Merging two definitions lifts the entry to the higher of the two ranks (undefined, weak, common or bss, other global) if and only if the new one is not of the refused kinds (hidden, or absolute against common); then the old rank stays |
| SymbolTable.MergeTightens | compiler/tccelf.c:482-560 | A defined entry stays defined and takes the tighter of the two visibilities, default being the loosest |
| SymbolTable.RankDropsExactly | compiler/tccelf.c:482-560 | A merge lowers an entry's rank exactly when it patches a weak definition over one with a system-specific binding; with the standard bindings it never does |
| SymbolTable.AddKeeps | compiler/tccelf.c:482-560 | For every binding: one added symbol keeps one non-local entry a name, every index, name and binding class, and changes no entry but the one it returns, which the name is then found at |
| SymbolTable.AddKeepsRanks | compiler/tccelf.c:482-560 | For every binding: one addition lowers no rank if and only if it does not patch a weak definition over an entry of higher rank |
| SymbolTable.RunsCompose | compiler/tccelf.c:482-560 | Adding two lists of symbols one after the other is adding their concatenation: table, indices and errors |
| SymbolTable.RunResolves | compiler/tccelf.c:482-560 | After any run of additions, whatever the bindings, there is one non-local entry a name, nothing defined was lost or loosened, and each returned index stands for its symbol |
| SymbolTable.RunGrowsFromEveryPrefix | compiler/tccelf.c:482-560 | Between any two moments of a run, whatever the bindings, entries keep index and name, stay defined, and their visibility only tightens once defined |
| SymbolTable.RunKeepsRanksExactly | compiler/tccelf.c:482-560 | The steps of a run lower no rank if and only if none of them demotes an entry |
| SymbolTable.RanksKeptFromEveryPrefix | compiler/tccelf.c:482-560 | Then no entry has a lower rank at the end than after any part of the run |
| SymbolTable.StandardRun | compiler/tccelf.c:482-560 | With the standard bindings no step of a run demotes an entry |
| SymbolTable.DemotionExample | compiler/tccelf.c:482-560 | A weak definition patched over one with a system-specific binding |
| SymbolTable.RefusalExample | compiler/tccelf.c:482-560 | A hidden definition that does not displace a common entry |
| SymbolTable.RunTakesTheBestRank | compiler/tccelf.c:482-560 | With the standard bindings, over a whole run a name ends with the best rank that was offered for it, unless a refusable definition was among the offers |
| SymbolTable.StaysResolved | compiler/tccelf.c:482-560 | An index that stands for a symbol goes on standing for it while the table improves |
| SymbolTable.OtherNamesAreUntouched | compiler/tccelf.c:482-560 | Adding a symbol does not change what another name is found at |
| Definitions.UndefinedYields | compiler/tccelf.c:482-560 | Over an undefined entry a symbol is taken as it is: value, size, binding, type, section and visibility |
| Definitions.MergeIsWhole | compiler/tccelf.c:482-560 | For every binding: after a merge the entry is, visibility aside, wholly the old definition or wholly the new one |
| Definitions.MergeChooses | compiler/tccelf.c:498-549 | Which of the two it is, by ranks; and a second definition is an error if and only if both are strong, or a common or bss entry meets one in a reserved section, they differ, the new one is not hidden and the old one no assembler .set |
| Definitions.AddsNew | compiler/tccelf.c:482-560 | A local symbol, or one of a new name, comes into the table as it arrived |
| Definitions.ErrorsCounted | compiler/tccelf.c:543 | The errors of a run are exactly the additions that clash with the entry they meet |
| Definitions.RunIsWhole | compiler/tccelf.c:482-560 | For every binding: at the end of a run each entry is, visibility aside, one that the table had there or one of the symbols that got its index |
| Definitions.SingleOffer | compiler/tccelf.c:482-560 | A new name that is offered once ends with the very symbol that was offered |
| Definitions.SingleDefinition | compiler/tccelf.c:482-560 | A name that was not defined and is defined once in a run ends with that value, size, binding, type and section, however often and wherever it is referred to |
| Definitions.StrongStaysInRun | compiler/tccelf.c:482-560 | A strong definition that is no assembler .set keeps value, size, binding, type and section for the rest of the run |
| Definitions.SecondDefinitionIsReported | compiler/tccelf.c:543 | After a strong definition a different one of the same name that is not hidden is an error, wherever in the run it comes |
| SymbolSection.SymbolTab.PutStr | compiler/tccelf.c:329-339 | A name is laid down with its terminator at the string cursor and reads back; nothing beyond the cursor's new place is touched |
| SymbolSection.SymbolTab.RebuildHash | compiler/tccelf.c:358-391 | The rebuilt index threads every non-local entry into its bucket's chain, newest first, with strictly decreasing indices, and no others |
| SymbolSection.ChainStarts | compiler/tccelf.c:441-462 | The head of a name's chain skips no entry that a scan from the end would find |
| SymbolSection.ChainContinues | compiler/tccelf.c:441-462 | Each link of a chain skips no entry of the name between the two indices |
| SymbolSection.SymbolTab.FindSym | compiler/tccelf.c:441-462 | Following the chain ends and finds the same index as the linear scan: the largest non-local entry of that name, or 0 |
| SymbolSection.SymbolTab.PutSym | compiler/tccelf.c:394-439 | The table grows by exactly the new entry, the index stays right through growth and rebuilding, and the bytes beyond the cursors are kept |
| SymbolSection.SymbolTab.MergeInto | compiler/tccelf.c:500-557 | In place: only the entry's attributes change, to the merge of old and new, and a second definition counts one error |
| SymbolSection.SymbolTab.SetSym | compiler/tccelf.c:482-560 | The buffers, the chained index and the error count end as the value-level addition says, and at most one record and one name were appended |
| SymbolSection.SymbolTab.BeginFile | compiler/tccelf.c:145-154 | The table is unchanged, and the start of the file is marked in every section |
| SymbolSection.SymbolTab.PutFileSym | compiler/tccelf.c:394-439 | While a file is compiled its symbols are appended without the index, and nothing before the file changes |
| SymbolSection.SymbolTab.SetFileSym | compiler/tccelf.c:29-60 | While a file is compiled a symbol of it is updated in place; names, other symbols and what was before the file are kept |
| SymbolSection.SymbolTab.PutReloc | compiler/tccelf.c:563-590 | A relocation against a symbol of the file is appended to its section, and nothing else changes |
| SymbolSection.ReadsOriginal | compiler/tccelf.c:158-192 | The write cursors never pass the read cursors: the record and the name about to be replayed are still the ones the file ended with |
| SymbolSection.SymbolTab.ReplaySym | compiler/tccelf.c:170-177 | One replayed symbol is added as if read from a private copy, an undefined local as global, and the symbols not yet read stay intact in the buffers being written |
| SymbolSection.SymbolTab.ReplayFile | compiler/tccelf.c:158-177 | The in-place replay of a whole file equals adding its symbols from a private copy |
| SymbolSection.SymbolTab.RedirectRelocs | compiler/tccelf.c:178-190 | Relocations of the file are renumbered through the translation table; relocations before the file and of other sections are kept |
| SymbolSection.SymbolTab.EndFile | compiler/tccelf.c:158-192 | Ending a file truncates the buffers and replays: the table, the translation and the errors are those of adding the file's symbols to the table before it, and each section's relocations are redirected accordingly |
| SymbolSection.RelocationsFollowTheirSymbols | compiler/tccelf.c:158-192 | After a file ends, whatever the bindings, each of its relocations has kept place, kind and addend and names the entry that its symbol was merged into |
| SymbolSort.FoundAtItsPlace | compiler/tccelf.c:656-712 | Every entry is found in the sorted table at its new place |
| SymbolSort.OrderKept | compiler/tccelf.c:656-712 | Locals come before the others and entries of one part keep their order, so no two entries share a place |
| SymbolSort.PartsAreAll | compiler/tccelf.c:656-712 | The sorted table is a permutation of the old one |
| SymbolSort.InfoSeparates | compiler/tccelf.c:656-712 | sh_info separates exactly: an entry is local if and only if its index is below it |
| SymbolSort.Output.SortSyms | compiler/tccelf.c:656-712 | The table is sorted stably, locals first, and each relocation against it still names the symbol it named; other sections and everything else of a relocation are unchanged |
| ObjectFile.Linker.PlaceSections | compiler/tccelf.c:1463-1520 | The pass over an object's section headers places its sections one after the other, each at the end of the output section of its name, and stops at one of another type |
| ObjectFile.SectionsKept | compiler/tccelf.c:1463-1520 | Output sections keep number, name and type and never shrink, names stay different, and each merged section lies aligned in an output section of its name and type, after all that was there before |
| ObjectFile.PlacedApart | compiler/tccelf.c:1463-1520 | Sections of one object that share an output section do not overlap and keep their order |
| ObjectFile.PlacedTight | compiler/tccelf.c:1506-1518 | A section lies at the first aligned place from the end of its output section on and ends it; the other output sections stay as they were |
| ObjectFile.MergedExactly | compiler/tccelf.c:1463-1486 | The kinds of sections that are merged, by the numbers of the ELF standard |
| ObjectFile.NotMerged | compiler/tccelf.c:1463-1486 | Of the other sections the symbol table stands for the output's, and the rest are dropped |
| ObjectFile.Linker.AddSymbols | compiler/tccelf.c:1538-1560 | The pass over an object's symbols adds them in order, each moved to its output section by the offset of its section, and skips those of dropped sections |
| ObjectFile.KeptAll | compiler/tccelf.c:1541-1553 | Exactly the symbols of sections that were not dropped are added, each once and in their order: with the number of the output section and its value counted from where its section was put, all else unchanged; a symbol of no section as it is |
| ObjectFile.LoadResolves | compiler/tccelf.c:1405-1560 | After an object is merged every global symbol it keeps is found by name, no definition or section there before is lost, and names stay unique |
| ObjectFile.LoadDefines | compiler/tccelf.c:1405-1560 | A name that was not defined and that one symbol of the object defines has that symbol's size and type afterwards, the section its section went to and its value counted from there; a value within its section lies in the range that the section was given |
| ObjectFile.Linker.LoadObject | compiler/tccelf.c:1405-1560 | Loading an object is placing its sections and adding its symbols; a section of the wrong type ends it before a symbol is added |
| Archive.MembersApart | compiler/tccelf.c:1463-1520 | Over all loads from an archive: a section of a member lies in an output section of its name and type after all that was there before, and before all that a later member brings there |
| Archive.IsWanted | compiler/tccelf.c:1680-1709 | A name is wanted exactly if the table has it undefined or only weakly defined |
| Archive.WantedExactly | compiler/tccelf.c:1680-1709 | A name is wanted exactly if it has an entry of a rank below that of a common symbol |
| Archive.OneMoreLoad | compiler/tccelf.c:1676-1735 | Loading a wanted member not loaded yet keeps the order of loads legitimate: none twice, each asked for at its time |
| Archive.FewerUnloaded | compiler/tccelf.c:1676-1735 | Each load leaves fewer indexed members unloaded, which ends the repetition |
| Archive.LoadAlacarte | compiler/tccelf.c:1640-1741 | The repeated passes end; no member is loaded twice and each was asked for when it was; on success every indexed name is absent, strongly defined or has its member loaded; failure happens only at a wanted entry whose member is missing or does not load |
| Layout.Start | compiler/tccelf.c:987-1009 | Headers come first, and the first segment's address and file offset are a whole number of segment alignments apart; a given text address is met exactly |
| Layout.LayTurn | compiler/tccelf.c:1022-1055 | One turn places exactly the sections of its class, in order, each aligned after what came before, and extends the segment by them |
| Layout.TraceOne | compiler/tccelf.c:1037-1053 | Placing one more section adds no padding but what its alignment needs, in memory and in the file |
| Layout.LaySegment | compiler/tccelf.c:1012-1072 | Two turns make a segment: its bounds enclose its sections, initialised sections have the same distance from the segment start in file and in memory, and the file size does not exceed the memory size |
| Layout.LayoutExecutable | compiler/tccelf.c:977-1090 | For all sections with power-of-two alignments: inputs are kept, every section is placed once between the start address and the end of the second segment, each at the first aligned place from the end of the one before - with the gap of a page between the segments - and at the same distance in the file; both segments are right, start and end with a section, the second segment's offset and address are congruent if and only if the first segment's uninitialised size is, and the two segments share no page if and only if there is a second one |
| Layout.IncongruentExample | compiler/tccelf.c:1046-1071 | One uninitialised byte in the first segment makes the second segment's offset and address incongruent |
| Layout.LayoutObject | compiler/tccelf.c:977-1090 | For an object file every section is placed in the file once, each at the first aligned place |
| Layout.FinishedImage | compiler/tccelf.c:977-1090 | In a finished layout loaded sections are aligned and pairwise disjoint in memory, file ranges are pairwise disjoint and lie between the headers and the reported end, and the order lists every section |
| Layout.OrderIsComplete | compiler/tccelf.c:977-1090 | The section order is a permutation of all sections |
| Layout.PagesApart | compiler/tccelf.c:1069-1071 | A segment that starts at the next page boundary, or a page later, shares no page with the one before |
| Sv39.Descend | emulator/rv64.c:156-164 | A walk that succeeds ends at a valid leaf entry in RAM, read through aligned entries in RAM only |
| PageWalk.DescendExactly | emulator/rv64.c:156-164 | The walk ends at a page entry if and only if three entries in RAM are valid, the first two point on and the third does not, and ends at the third; stated on the bytes of memory |
| PageWalk.AllowedExactly | emulator/rv64.c:165-173 | The checks pass if and only if the walk ended at level 0, bit 3, 1 or 2 is set for fetch, load or store, and a page with bit 4 is reached from user mode, or by a load or store from supervisor mode with SUM, a page without from supervisor mode |
| PageWalk.TranslatesExactly | emulator/rv64.c:141-182 | For every mode, address and access: whether a translation succeeds, the address it gives and the memory it leaves, spelled out on the numbers in memory |
| Sv39.WithADKeeps | emulator/rv64.c:174-177 | Setting the accessed and dirty bits changes no permission and no page, and nothing when they are set already |
| Coherence.HitIsFresh | emulator/rv64.c:149-178 | A cached page that is backed by a walk gives the translation a fresh walk would give, and that walk would write nothing |
| Coherence.DescendIgnoresAD | emulator/rv64.c:156-177 | Two memories that differ only in accessed and dirty bits lead every walk to the same entry |
| Coherence.UpdateKeepsBacked | emulator/rv64.c:174-177 | The walk's own update of accessed and dirty bits keeps every cached page backed |
| Coherence.LeafIsBacked | emulator/rv64.c:174-181 | The page just walked is backed in the memory after the update |
| Coherence.StoreKeepsBacked | emulator/rv64.c:211-235 | A store that misses the page-table words a walk read keeps that cached page backed |
| Mmu.Machine.FlushTlb | emulator/rv64.c:66-71 | Whatever changed before, after a flush both caches are empty and consistent with the current regime |
| Mmu.Machine.WalkTable | emulator/rv64.c:156-164 | The loop from the root down finds exactly what the recursive three-level walk finds |
| Mmu.TagDecodes | emulator/rv64.c:32-33 | Slot and tag together determine page, mode and kind of access, so one entry answers for one translation |
| Mmu.Machine.NoHitWithoutSv39 | emulator/rv64.c:145-154 | Outside Sv39 mode nothing is cached and no lookup hits: the fast paths need no test of the mode |
| Mmu.Machine.HitAnswers | emulator/rv64.c:149-154 | A TLB hit that no guest store has made stale is the translation of a fresh walk under the current satp, privilege and SUM |
| Mmu.Machine.SetAD | emulator/rv64.c:174-177 | The update of an entry keeps all cached pages backed |
| Mmu.Machine.Fill | emulator/rv64.c:178-181 | Filling a slot after a walk keeps the caches consistent and changes no other slot |
| Mmu.Machine.TranslateVa | emulator/rv64.c:141-182 | Translation through the TLB answers, and updates memory, as the bare walk does, in every mode, and keeps the caches consistent; it succeeds with exactly the address that the entries in memory and their bits give |
| Mmu.Machine.LoadInPage | emulator/rv64.c:196-209 | A load inside a page gives the value, fault and memory of the bare walk |
| Mmu.Machine.LoadAcross | emulator/rv64.c:187-195 | A load across a page boundary gathers the bytes that bare walks one after the other would give, in spite of the entries it fills meanwhile |
| Mmu.Machine.Load | emulator/rv64.c:183-210 | When no stale entry answers, a load does what it would do with no cache at all |
| Mmu.NearSlots | emulator/rv64.c:32 | Bytes of one access share a TLB slot only if they are on the same page |
| Mmu.Machine.GuestWrite | emulator/rv64.c:225-234 | A guest store keeps the caches consistent by marking stale exactly what it hit |
| Mmu.Machine.StoreAcross | emulator/rv64.c:215-220 | A store across a page boundary scatters its bytes as bare walks would, and stops at the first fault |
| Mmu.Machine.StoreInPage | emulator/rv64.c:221-234 | A store inside a page does to memory what the bare walk would have it do |
| Mmu.Machine.Store | emulator/rv64.c:211-235 | When no stale entry answers, before or after, a store leaves memory as it would be with no cache at all |
| Mmu.StoreOverEnd | emulator/rv64.c:215-220 | A store over the end of a page, with both pages mapped to frames of RAM that hold none of the tables leading there, puts its low bytes at the end of the one frame and the others at the start of the other, and nothing else |
| Mmu.Machine.FetchHitAnswers | emulator/rv64.c:548-557 | For a 4-aligned pc outside the top page, the cached fetch page gives the word a fresh walk would fetch |
| Mmu.Machine.FetchWord | emulator/rv64.c:548-557 | For every pc: a miss is a load through the caches, after which a page of RAM found by Sv39 is the cached fetch page; a hit always succeeds, with the word at its 32-bit offset of RAM. On a cached page that has not gone stale it is the word of the bare walk if pc modulo 4096 is at most 4092; success departs from the bare walk if and only if the pc is above that and the next virtual page does not answer, or the hit is on the empty cache and the top page does not answer |
| Mmu.Machine.CacheFetchPage | emulator/rv64.c:551-556 | The fetch page is remembered only from a TLB entry in RAM and is backed like it |
| Mmu.Machine.SetCsr | emulator/rv64.c:236-247 | Writing satp or sstatus leaves the TLB and the fetch cache empty; every other register leaves the regime, the tags and the fetch page alone |
| Mmu.Machine.Trap | emulator/rv64.c:248-262 | A trap records cause, value, pc and mode, turns interrupts off and leaves the TLB and the fetch cache empty |
| Mmu.TrapKeepsSum | emulator/rv64.c:248-262 | A trap leaves SUM alone, so that supervisor access to user pages stays as it was |
| Mmu.TrapThenSret | emulator/rv64.c:248-262 | Returning from a trap restores the interrupt enable and every status bit the two do not use between them |
| Mmu.TrapBits | emulator/rv64.c:254-258 | A trap moves the interrupt enable to bit 5, clears it, records the mode in bit 8 and leaves every other bit |
| Mmu.SretBits | emulator/rv64.c:293-298 | sret moves bit 5 back, sets it, clears bit 8 and leaves every other bit |
| Mmu.Machine.TrapThenReturn | emulator/rv64.c:293-299 | A trap followed by a return comes back to the interrupted pc and privilege |
| Mmu.EmptyCacheMatchesTopPage | emulator/rv64.c:548 | An empty fetch cache is taken for a hit exactly in the topmost page of the address space |
| Mmu.TopPageFaults | emulator/rv64.c:548 | There a bare fetch succeeds exactly if Sv39 maps the page - and, for a word over its end, page 0 - to memory or a device, in every mode and for every pc |
| Mmu.AcrossPages | emulator/rv64.c:187-195 | A load across a page boundary succeeds exactly if both pages answer, and then has the end of the one frame and the start of the other, in every mode |
| Mmu.FetchOverEnd | emulator/rv64.c:548-557 | With pc modulo 4096 above 4092 and its page cached, a bare fetch succeeds if and only if the next virtual page answers, and its word is the one a hit reads if and only if that page begins with the bytes that follow the frame |
| Mmu.NextFrameFollows | emulator/rv64.c:548-557 | So the hit reads the right word if the next virtual page is mapped to the next frame and its entry needs no update |
| FetchExample.FetchPastThePage | emulator/rv64.c:548-557 | From a fresh machine, two fetches four bytes apart, the first of which caches the page: the second succeeds where the walk faults at the next page |
| Timer.Emulator.SetStimecmp | emulator/rv64.c:239-245 | Writing stimecmp sets the countdown for the current clock, 64-bit wrap and saturation included, and withdraws a pending interrupt exactly if it is not due |
| Timer.CountdownCounts | emulator/rv64.c:239-245 | For every stimecmp and clock, within fewer than 2^32 - 1 steps the countdown ends exactly in the first step whose clock has reached stimecmp; neither the wrap of the division nor saturation matters |
| Timer.EndsWhenDue | emulator/rv64.c:539-546 | In every step the countdown reaches zero exactly if the comparison of clock and stimecmp would fire |
| Timer.FirstRaise | emulator/rv64.c:236-247 | After a write of stimecmp the interrupt is raised first in exactly the first step whose clock is at least stimecmp |
| Timer.QuietBefore | emulator/rv64.c:539-546 | As long as the clock is below stimecmp no step raises anything |
| Timer.TickAgainstPlain | emulator/rv64.c:538-547 | One step agrees with comparing the clock exactly if the latch is set; taking an interrupt unsets it, and only a write of stimecmp sets it again |
| Timer.TickMeans | emulator/rv64.c:538-547 | One step of the latched clock: when it is due, what it does to the pending bit, when the interrupt is taken in place of the guest's write, and what the write does |
| Timer.AgreesExactly | emulator/rv64.c:528-566 | A call agrees in every step with comparing the clock each time if and only if in no step before its last the guest accepts while the clock is not below the value last written to stimecmp |
| Timer.TakenExactly | emulator/rv64.c:528-566 | An interrupt is taken in a call if and only if in some step the guest accepts while the clock is not below the value last written to stimecmp |
| Timer.SeenExactly | emulator/rv64.c:528-566 | What the guest sees - interrupts and the pending bit - is what it would see with the clock compared in every step, if and only if, between a taken interrupt and the next write of stimecmp, it neither accepts another interrupt nor has cleared the pending bit |
| Timer.TwoCallsAreOne | emulator/rv64.c:528-534 | Two calls do what one call does with all the steps, if and only if the first does not end between a taken interrupt and the next write of stimecmp |
| Timer.LatchExample | emulator/rv64.c:528-566 | A guest that accepts and rewrites nothing is interrupted once by one call of two steps, twice by two calls of one step |
| Timer.Emulator.RvRun | emulator/rv64.c:528-566 | For every behaviour of the guest the countdown raises and takes interrupts in the very steps in which the clock, latched from a write of stimecmp until the interrupt is taken, reaches stimecmp; it agrees with the plain comparison if and only if in no step before the last the guest accepts while the clock is not below the value last written to stimecmp; the next call resumes from that clock |
| Rv64.DecodesR | compiler/risc/riscv64-encode.h:6-8 | The emulator's fields of an encoded register word are the encoder's arguments |
| Rv64.DecodesI | compiler/risc/riscv64-encode.h:9-11 | The fields of an encoded immediate word decode back, the immediate if and only if it fits in 12 signed bits |
| Rv64.DecodesS | compiler/risc/riscv64-encode.h:12-14 | The same for store words with their split immediate |
| Rv64.DecodesU | compiler/risc/riscv64-encode.h:15-16 | The same for the upper-immediate words |
| Rv64.StandardWords | compiler/risc/riscv64-encode.h:6-22 | The words of one instruction of each format, and the distances of two jumps and a branch, as the architecture encodes them |
| Rv64.ArithmeticSteps | emulator/rv64.c:364-388 | What the emulator does with the words of addi, addiw, slli, srli and add, written as numbers |
| Rv64.UpperSteps | emulator/rv64.c:361-362 | The same for lui and auipc |
| Rv64.JumpSteps | emulator/rv64.c:345-363 | The same for jal and jalr |
| ConstLoad.CodeWords.LoadConst | compiler/risc/riscv64-gen.c:259-309 | The generator's branches emit exactly the sequence for the constant and type, every immediate within the 12 bits the encoder asserts |
| ConstLoad.LongSequence | compiler/risc/riscv64-gen.c:269-287 | The seven or eight instructions of the long form build the constant, or 2^32 less exactly if the middle piece overflows an int |
| ConstLoad.RunEmitted | compiler/risc/riscv64-gen.c:259-309 | Running the emitted words leaves the built value in the register and every other register alone |
| ConstLoad.ConstantIsMaterialised | compiler/risc/riscv64-gen.c:259-309 | For all 2^64 constants: the low word is always right, and a long or pointer constant is right in all 64 bits if and only if it is not one with a nonzero high word (beyond sign extension) over a low word in 0x7ff80000 to 0x7fffffff |
| ConstLoad.OverflowExample | compiler/risc/riscv64-gen.c:280 | 0x17fffffff is loaded as 0x7fffffff |
| JumpList.TextSection.Gjmp | compiler/risc/riscv64-gen.c:918-924 | A forward jump is put in front of its list; where no code is wanted, nothing changes |
| JumpList.TextSection.GjmpCond | compiler/risc/riscv64-gen.c:943-962 | An inverted branch over a listed jump is emitted for the comparison |
| JumpList.TextSection.GjmpAppend | compiler/risc/riscv64-gen.c:964-976 | Two lists become their concatenation, and only the last word of the first changes |
| JumpList.TextSection.GsymAddr | compiler/risc/riscv64-gen.c:149-166 | Succeeds exactly if every distance passes the guard; then every word of the list holds its jump, and no other byte differs |
| JumpList.ContinuesAtTarget | compiler/risc/riscv64-gen.c:149-166 | From every resolved word the emulator continues at the target with all registers kept, if and only if the distance is even and within the signed 21 bits of jal |
| JumpList.OutOfJalRange | compiler/risc/riscv64-gen.c:157 | A distance of 2^20 passes the guard and leads elsewhere |
| JumpList.ConditionalJump | compiler/risc/riscv64-gen.c:943-962 | For each of the ten comparisons: when it holds, branch and jump lead to the target; when not, one step leads past the jump |
| JumpList.OthersKept | compiler/risc/riscv64-gen.c:149-166 | Words apart from a list are as before, so that other lists stay lists |
| JumpList.ChainKept | compiler/risc/riscv64-gen.c:149-166 | A list survives every change of bytes outside its words |
| Spill.CodeGen.TempLocalIsFree | compiler/vstack.c:90-100 | True exactly if no entry on the stack names a frame slot at that place |
| Spill.CodeGen.TempLocal | compiler/vstack.c:102-119 | The slot handed out is aligned and overlaps nothing that any entry on the stack reads; the frame grows, by no more than the slot and its alignment, if and only if no recorded slot of that alignment is large enough and free |
| Spill.SavedKeepsMeaning | compiler/registers.c:63-95 | A saved entry denotes from the frame slot what it denoted from the registers, if its registers are the first ones stored there and it is no wider |
| Spill.SavedWords | compiler/registers.c:63-83 | The slot holds the bytes of the first register, as many as are saved, and then those of the second; nothing else changes |
| Spill.MeaningKeptExactly | compiler/registers.c:63-95 | Marking an entry as saved where another was saved keeps its meaning in every machine if and only if both have the same first register, the same second register if it has one, and it is no wider - for values and for lvalues |
| Spill.StackKeptExactly | compiler/registers.c:49-95 | Saving a register keeps the meaning of every entry of a stack, in every machine in which none reads from the slot, if and only if all its users below the cut can be read back from the slot of the lowest |
| Spill.NarrowExample | compiler/registers.c:63-95 | A byte below a word in one register: in a given machine the word is lost; the other way round both are kept |
| Spill.SecondRegisterExample | compiler/registers.c:60-93 | A two-word value in registers 10 and 11 below a word in 11: in a given machine the word is lost; below a word in 10 both are kept |
| Spill.SavingKeepsMeanings | compiler/registers.c:49-95 | Then moving a register out of all entries to one slot changes the meaning of none, and the stack stays in order |
| Spill.CodeGen.SaveRegUpstack | compiler/registers.c:49-95 | The lowest entry with a value in the register and every user above it, below the top n, name a slot aligned for it now, all others are as before; each entry means what it meant if all users can be read back |
| Spill.CodeGen.SaveReg | compiler/registers.c:45-47 | No value is left in the register; each entry means what it meant if all users can be read back |
| Spill.RunKeptExactly | compiler/registers.c:38-43 | Saving one register after the other keeps what every entry means, wherever the slots are and in every machine in which nothing reads from a slot when it is written, if and only if in each turn all users of the entry's register can be read back from the slot of the lowest |
| Spill.CodeGen.SaveRegs | compiler/registers.c:38-43 | No value but the top n is left in a register; stack and machine are those of saving the register of one entry after the other, for every stack; each entry means what it meant if in each turn the users of the entry's register can be read back |
| Spill.CodeGen.GetReg | compiler/registers.c:98-134 | The lowest free register of the class if there is one; otherwise that of the lowest entry with a register of the class, which no value on the stack is in any more; each entry means what it meant if the users of a register taken can be read back |
| Spill.CodeGen.MoveReg | compiler/registers.c:136-147 | One register is copied to another and all others are kept; each entry means what it meant if the users of the register can be read back |
| Spill.FreeRegister | compiler/registers.c:98-147 | Overwriting a register that no value is in changes no meaning |
| StructLayout.StartBitField | compiler/tccgen.c:1513-1532 | A bit-field starts at or after the write position, and inside one container of its type where the rules ask for it |
| StructLayout.Settle | compiler/tccgen.c:1538-1540 | Moving whole units from the bit position to the byte position keeps the absolute position |
| StructLayout.PlaceField | compiler/tccgen.c:1476-1559 | A plain member starts at the least multiple of its alignment from the end of the fields before it on; a bit-field at that very bit, unless it has zero width, an aligned attribute, or is not packed and would touch more aligned pieces than its type consists of, and else at the next multiple too |
| StructLayout.OverflowsExactly | compiler/tccgen.c:1527-1531 | The test for an overflow holds exactly if the bits touch more aligned pieces than the type consists of |
| StructLayout.PlaceStruct | compiler/tccgen.c:1476-1561 | Fields occupy disjoint bit ranges in declaration order, each where it has to start after the one before, the first from bit 0; the bytes used end with the last, and the alignment is met by a field or 1 |
| StructLayout.PlaceUnion | compiler/tccgen.c:1476-1561 | Members of a union start at bit 0 and fit, and the widest fills the bytes used |
| StructLayout.ChooseUnit | compiler/tccgen.c:1589-1610 | The search for an access unit ends and keeps the absolute bit; with natural alignment of long long no covering unit is smaller |
| StructLayout.SmallestUnitDecides | compiler/tccgen.c:1589-1623 | If the smallest covering unit sticks out of the struct, every covering unit does |
| StructLayout.ChooseAccess | compiler/tccgen.c:1578-1624 | The second pass keeps the bit-field's absolute bit range, and reads it through a unit inside the struct that covers it or bytewise - bytewise only if no unit fits |
| StructLayout.LayoutStruct | compiler/tccgen.c:1463-1625 | For every field list: disjoint ranges in order, each where it has to start, size the least multiple of the alignment that holds all fields, all requested alignments met and one of them taken, containment of unpacked bit-fields, and an access of every bit-field that covers it inside the struct |
| StructAccess.StoreField | compiler/tccgen.c:1185-1235 | Writing a bit-field of a struct that was laid out replaces exactly its bits, whichever access the second pass chose |
| StructAccess.LoadField | compiler/registers.c:155-188 | Reading one gives its bits, extended, whichever access was chosen |
| StructAccess.FieldsAreIndependent | compiler/tccgen.c:1463-1625 | What is stored into one bit-field of a struct that was laid out reads back cut to its width, and every other field and every bit outside the struct keeps its value |
| Bitfield.StorePacked | compiler/expr.c:50-72 | The byte loop puts exactly the value's low bits into the field, and changes no other bit of memory |
| Bitfield.LoadPacked | compiler/expr.c:26-48 | The byte loop gives the field's bits, sign- or zero-extended |
| Bitfield.InitBitField | compiler/tccgen.c:3322-3337 | The static initialiser's loop writes the same bytes as the store |
| Bitfield.LoadUnit | compiler/registers.c:158-187 | Reading through an access unit by two shifts gives the same value as reading bytewise |
| Bitfield.StoreUnit | compiler/tccgen.c:1191-1234 | Writing through an access unit by masks changes the same bits as writing bytewise |
| Bitfield.RoundTrip | compiler/expr.c:26-72 | What was stored reads back as the value cut to the width and extended again, for every position and width |
| Bitfield.FitsExactlyWhenKept | compiler/expr.c:26-72 | A value reads back unchanged if and only if it is the extension of its low bits |
| Bitfield.OtherFieldsKept | compiler/expr.c:50-72 | A field that shares no bit keeps its value |
| Bitfield.StoresCommute | compiler/expr.c:50-72 | Stores to fields that share no bit commute |
| Fold.SDivIs | compiler/optimise.c:14-18 | Division of magnitudes with the sign put back is truncated signed division modulo 2^64 |
| Fold.SignedLessIs | compiler/optimise.c:20-23 | Comparing with flipped sign bits is the signed order |
| Fold.CanonIs | compiler/optimise.c:39-44 | The canonical word of a constant is the two's complement of its value in its type |
| Fold.ArithmeticMeans | compiler/optimise.c:48-72 | What is computed: the value in the type's range congruent to the sum, difference, product, truncated quotient or its remainder, or those of the bits; nothing by zero alone |
| Fold.TruncDivIs | compiler/optimise.c:14-18 | The remainder is smaller than the divisor and has the dividend's sign |
| Fold.BitAt | compiler/optimise.c:49-51 | Each bit of a bitwise operation is that operation on the two bits |
| Fold.ShiftsMean | compiler/optimise.c:73-77 | Shifts multiply by a power of two or take the floor quotient, of the value or of the bits, the count modulo the width |
| Fold.ConstantsFold | compiler/optimise.c:46-99 | For every operator, type and pair of constants, the folded word is the value of the operation in the two's complement arithmetic of its type, and folding declines exactly on division by zero, if and only if it is not a logical right shift of a negative signed 32-bit value by a count that is not a multiple of 32; those fold to the arithmetic shift |
| Fold.ShiftExample | compiler/optimise.c:74 | The int -5 shifted right logically by 8 is 2^24 - 1 and folds to -1 |
| Fold.SelectionKeepsMeaning | compiler/tccgen.c:696-733 | The unsigned operator that gen_op selects computes on the bits what the source's operator means on the values |
| Fold.NoOperation | compiler/optimise.c:124-133 | The operations filtered out are identities of their types |
| Fold.ConstantResult | compiler/optimise.c:114-123 | The operations replaced by their constant have that value for every other operand |
| Fold.ShiftedConstant | compiler/optimise.c:108-113 | 0 shifted by anything is 0, and -1 shifted right arithmetically is -1 |
| Fold.ShiftInstead | compiler/optimise.c:134-150 | Multiplication and unsigned division by a power of two equal the shifts |
| Fold.ShiftDifference | compiler/optimise.c:134-150 | Signed division by a power of two equals the arithmetic shift if and only if the dividend is a multiple or not negative |
| Fold.PowerTest | compiler/optimise.c:136 | The bit test holds for powers of two alone |
| Fold.Log2 | compiler/optimise.c:137-141 | The loop counts the exponent |
| Fold.Moved | compiler/optimise.c:151-163 | An address with the new offset is the old address plus or minus the constant, modulo 2^64 |
| Fold.GenOpic | compiler/optimise.c:27-174 | Whatever gen_opic leaves - a constant, an operand, an address with a new offset, a shift, the operation - means the operation for every value of the unknown operands, pointer differences being exact, if and only if it is not a logical right shift of a negative int constant by a constant that is not a multiple of 32; constants always fold, neutral and absorbing constants, powers of two and addresses are simplified as stated; the only refusal is a constant division by zero where a constant is wanted |
| Infix.GrammarIsProper | compiler/expr.c:730-748 | Each of the ten nonterminals of C99 sections 6.5.5 to 6.5.14, written with its own operators, derives exactly the trees that the precedence table calls proper with a root of its level or above |
| Infix.ProductsBindTighter | compiler/expr.c:741-742 | a + b * c has the product below the sum, for each of * / % and each of + - |
| Infix.OneTree | compiler/expr.c:730-775 | An expression has one such tree |
| Infix.PostfixComputes | compiler/expr.c:730-775 | Operations issued in postfix order leave the tree's value on the value stack |
| Infix.Parser.ExprInfix | compiler/expr.c:760-775 | Precedence climbing extends an operand by exactly the operators of at least its level and issues their operations in postfix order |
| Infix.Parser.ExprLandor | compiler/expr.c:792-818 | A chain of && or || groups to the left and stops at the first looser operator |
| Infix.Parser.ExprLor | compiler/expr.c:728-775 | Every sequence of operands and operators in turn is read in full, and its operations are issued in the postfix order of the one tree that the logical-OR-expression of the C grammar gives it |
| Path.ResolvePath | kernel/syscall_posix.c:464-485 | For every input and base the buffer of 128 bytes holds the resolved text, cut off where it must be, and its NUL; nothing outside is written |
| Path.ResolvesToDestination | kernel/syscall_posix.c:464-485 | Against a canonical base, when nothing is cut off, the text is that of the directory reached by entering the components one by one |
| Path.DotsMean | kernel/syscall_posix.c:474-479 | A name goes down, two dots undo that and stay at the root, one dot stays |
| Path.UpUndoesDown | kernel/syscall_posix.c:470-484 | For every path a and name n: a/n names n in the directory of a, and a/n/.. and a/. name what a names |
| Path.ResolvingUp | kernel/syscall_posix.c:464-485 | Resolving a/n/.. gives the text of resolving a when nothing is cut off, and two dots at the root give the root |
| Path.TextReadsBack | kernel/syscall_posix.c:464-485 | A resolved text has no leading slash, no empty and no dot components: its components are the directory's names |
| Path.TextStart | kernel/syscall_posix.c:464-485 | A resolved text neither starts nor ends with a slash |
| Path.ComponentsOfJoin | kernel/syscall_posix.c:470-484 | The components of a/b are those of a followed by those of b |
| Path.ChangingIsJoining | kernel/syscall_posix.c:464-485 | Entering a and then a relative b reaches the directory that a/b names |
| Path.ChangeThenResolve | kernel/syscall_posix.c:464-485 | Resolving b after changing to a gives the text of resolving a/b at once |
| Path.ResolvedStays | kernel/syscall_posix.c:464-485 | Resolving a resolved path again changes nothing |
| Path.Process.Chdir | kernel/syscall_posix.c:1183-1193 | The working directory changes exactly if the resolved path is a directory, and is canonical again and the one the path names when nothing is cut off |
| Arith.MulhuIsHigh | emulator/rv64.c:263-269 | The four partial products and their carry give the high word of the product, for all operands |
| Arith.MulhIsHigh | emulator/rv64.c:385 | The corrections give the high word of the signed product |
| Arith.MulhsuIsHigh | emulator/rv64.c:386 | The correction gives the high word of the signed by unsigned product |
| Arith.RemainderStep | compiler/lib/libtcc1.c:119-129 | A step's remainder is exact although the shift may push its top bit out of 64 bits |
| Arith.UDivMod | compiler/lib/libtcc1.c:111-132 | The 64 steps give n = q * d + r with r < d, for every n and every d but 0 |
| Arith.DivDi3 | compiler/lib/libtcc1.c:135-156 | Signed division truncates toward zero, modulo 2^64 |
| Arith.ModDi3 | compiler/lib/libtcc1.c:158-178 | The remainder has the dividend's sign and completes the truncated quotient |
| Arith.PairedShifts | compiler/lib/libtcc1.c:194-244 | The three shifts of two 32-bit words are the shifts of the 64-bit integer, for every count below 64 |
| Scopes.Symbols.SymPushLocal | compiler/symbols.c:123-152 | A local symbol shadows exactly what its name meant, other names are untouched, and a redeclaration is noticed exactly in the same scope |
| Scopes.Symbols.SymPushGlobal | compiler/symbols.c:123-152 | A symbol declared outside functions shadows the global of its name |
| Scopes.Symbols.GlobalIdentifierPush | compiler/symbols.c:155-171 | A new global goes under the active locals of its name: the name keeps its local meaning, or else means the new global |
| Scopes.Symbols.LastLocal | compiler/symbols.c:163-168 | The walk along the chain finds the outermost active local |
| Scopes.Symbols.SymPop | compiler/symbols.c:343-369 | Every name means what the outermost popped symbol of it had shadowed; names without one are untouched |
| Scopes.PopRestores | compiler/symbols.c:343-369 | A name means again what it means below the mark if and only if it is not lost: its outermost popped symbol had left the chain earlier, and a global of the name was pushed since |
| Scopes.ActiveNotLost | compiler/symbols.c:343-369 | Where no statement expression left symbols behind, no name is lost |
| Scopes.Symbols.PrevScope | compiler/tccgen.c:2683-2699 | Leaving a scope gives each name the meaning it had when the scope was entered, or its newest global, if and only if it is not lost |
| Scopes.Symbols.PopFunction | compiler/tccgen.c:3840 | At the end of a function each name means its global, if and only if it is not lost |
| Scopes.LosesAGlobal | compiler/symbols.c:155-171 | A run that loses a global: a statement expression declares x, the function then calls an undeclared x, and after the function x no longer means that global |

## Left out

- File, terminal, browser and process input and output, option parsing, and the byte formats of ELF and archive files: an object or archive member is its section headers and its symbols.
- Floating point instructions, constants and runtime helpers.
- Macro expansion and lexing, both assemblers, and inline assembly.
- squeeze_multi_relocs: its inner loop swaps with a fixed position, and nothing is claimed of its result.
- gcase, console_read, the UART rings, i386-pair.c and value-stack rotations would add further members of kinds already present here.
- Allocation failure and the error exits by longjmp: a compilation error is a result or a count, after which nothing is claimed.
- SymbolSection.SymbolTab.PutSym: buffers grow by doubling in records and bytes, and their capacities are counted in records; allocation never fails.
- SymbolSection.SymbolTab.EndFile: relocations of the file against symbol 0 or against symbols before the file, which the source treats as an internal error, are excluded by a precondition.
- SymbolSection.SymbolTab.PutFileSym: symbols are put into a file with a name that is laid down anew; sharing of names between symbols is not modelled.
- Layout.LayoutExecutable: addresses and offsets are unbounded, so the wrap of the int that holds the file offset is not modelled; masks are modelled as rounding to multiples for powers of two.
- Mmu.Machine.Load: the UART and the network device answer arbitrary values, and page-table entries are read from RAM only.
- Mmu.Machine.Store: guest code that edits page-table words without a fence is covered only by marking the entries stale; what a stale entry answers is not claimed.
- Mmu.Machine.SetCsr: the timer's part of writing stimecmp is in Timer; reading TIME is not modelled.
- Mmu.Machine.FetchWord: a hit whose offset lies outside RAM reads an arbitrary word, where the source reads beyond its array.
- Timer.Emulator.RvRun: the 64-bit clock does not wrap during a call, and a call has fewer than 2^32 - 1 steps; the guest is an arbitrary sequence of writes and of interrupts taken or not.
- Rv64: only the words the modelled generators emit are executed (lui, auipc, addi, slli, srli, addiw, add, jal, jalr, branches).
- ConstLoad.CodeWords.LoadConst: constants without a symbol; register numbers are those of integer registers other than zero.
- JumpList.TextSection.Gjmp: the code position is not 0, which would end a list; code is shorter than 2 GiB.
- JumpList.TextSection.GsymAddr: when a distance is refused part of the list is already patched; the compilation ends there.
- Spill.CodeGen.SaveRegUpstack: the target's store instruction is a store of the register's bytes; entries hold one or two words, an entry names a spill slot only at its base, and a void entry has no value.
- StructLayout.LayoutStruct: the PCC rules; the MS rules and diagnostics are not modelled.
- StructAccess.StoreField: unions and members that are not bit-fields are read and written elsewhere.
- Bitfield.LoadPacked: integers are sequences of bits, so each operation emitted is modelled by what it does to bits; shift counts are below the width.
- Bitfield.StoreUnit: a field of 64 bits does not exist, the parser refuses it.
- Fold.GenOpic: casts have been made as gen_op makes them, and pointers are 64 bits wide; side effects of a dropped operand were emitted before.
- Fold.PowerTest: l & (l - 1) on 64-bit words is the recursive definition of bitwise and.
- Infix.Parser.Unary: an operand is atomic; what unary() parses inside parentheses, casts and calls is not modelled, nor is the short-circuit code of && and ||.
- Path.Process.Chdir: the file system is a function that says which resolved paths are directories.
- Arith.UDivMod: division by zero, which the source turns into a hardware fault, is excluded by a precondition.
- Scopes.Symbols.SymPushLocal: sym_copy and struct member lists are not modelled; records freed are not used again, so reuse by the allocator is not modelled; a local enumerator's scope field shares its storage with the top half of its value (compiler/symbols.h:31-42), where the model gives every recorded local a scope above 0.
- ObjectFile.Linker.LoadObject: the pass that rewrites an object's relocations, and flags, links and bytes of sections; whether that pass fails depends on the object alone and is part of it; sizes and offsets are unbounded.
