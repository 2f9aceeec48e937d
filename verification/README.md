# FnFinder analysis pipeline

FnFinder recovers the function boundaries of stripped AArch64 ELF files. This project models the passes
that decide them and proves what they promise, on code images of any size and content:

- **Indexes** (`elf_image.dfy`, `code_map.dfy`, `instruction_cache.dfy`): address lookup by linear scan,
  the sorted region index that replaces it, and the memoised decoder.
- **Control-flow graphs** (`worklist.dfy`, `control_flow_graph.dfy`, `basic_blocks.dfy`,
  `cfg_builder.dfy`): a worklist fixpoint under boundary, bound and hard-stop rules, and the basic blocks
  formed from what it covers.
- **Recursive discovery** (`recursive_disassembler.dfy`): the seed-driven traversal that finds call targets.
- **Function extents** (`function_extents.dfy`, `extent_theorems.dfy`, `extent_meaning.dfy`,
  `function_extent_analyzer.dfy`): the greedy sweep over entries, the carving of the gaps it leaves, the final
  merge, and a description of the result that nothing else meets.
- **The composition** (`function_analyzer.dfy`, `pipeline_meaning.dfy`, `name_resolver.dfy`): symbols, entry point, unwind ranges,
  discovery, extents, and the names of what is reported.
- **Binary parsers** (`byte_reader.dfy`, `leb128.dfy`, `eh_frame.dfy`, `eh_frame_parser.dfy`,
  `eh_frame_layout.dfy`, `symbol_count.dfy`, `gnu_hash_layout.dfy`): LEB128, `.eh_frame`, the GNU hash symbol count.
- **The demangler** (`mangling.dfy`, `itanium_demangler.dfy`): the recursive-descent parser against the
  mangling of section 5.1 of the Itanium C++ ABI.

Code that changes things step by step is modelled as methods and classes with the same loops and fields,
each proved against a function of its inputs; the theorems are lemmas about those functions, stated where they
say what a function means without the function's own parts. The file
`types.dfy` holds 64-bit addresses as a subset type, so every address computed by `+` is also proved not to
wrap; `bits.dfy` gives `|` and `<<` on naturals their meaning bit by bit; `sorting.dfy` stands for
`std::sort`, `std::upper_bound`, `std::unique` and the ascending order of `std::set`; `placement.dfy` says
where a written form stands in a longer sequence, for the round trips.

What the model assumes:

- Decoding is a fixed partial function of the bytes at an address and the address
  (`Code.IsDecoder`). When it succeeds the instruction sits at that address, is four bytes long, and any
  target it has is a whole number of words away
  (`external/capstone/arch/AArch64/AArch64Disassembler.c:346-347`,
  `external/capstone/arch/AArch64/AArch64InstPrinter.c:1995`).
- Mapped sections do not overlap, nor do executable segments, and their ends stay eight bytes below 2^64
  (`ElfImages.ElfImage.WellFormed`). The program sorts regions but enforces neither.

Two promises do not hold as stated. The region index and the image lookup can disagree inside a code
section: when the file holds the first byte of no code section the index is built from executable segments,
which the lookup ignores for addresses a section spans. `CodeMaps.IndexCanAnswerForUnbackedSection` gives
section and segment headers for which that happens, whatever the file contains apart from them, and
`CodeMaps.IndexAgreesWithImage` says exactly when the two agree. And the `.eh_frame` walk reads an 8-byte id
in the 64-bit length form where the standard has a 4-byte one: `EhFrameLayout.StandardWideHeader` says exactly
when such an entry is taken for a CIE, and `EhFrameLayout.StandardWideCieIsMisread` that a standard CIE never is.

`dafny verify dfyconfig.toml` checks the whole project.

## Model

| member | source | states |
|---|---|---|
| ExtentMeanings.ReportIsDetermined | src/analysis/control_flow/function_extent_analyzer.cc:29-238 | A list of intervals is the one the analysis returns if and only if it is a report: ascending, disjoint, each in one region; every usable entry lies in the function of an entry; functions of entries end at their stated size, else behind their graph below the next strong entry, else behind one word, within their region; and with gap discovery on, exactly the words of the gaps that can start a function, in order, start the others, each ending behind its graph below the end of its gap. |
| ExtentMeanings.ExtentsAreReport | src/analysis/control_flow/function_extent_analyzer.cc:29-238 | What the analysis returns is such a report. |
| ExtentTheorems.ExtentsPartition | src/analysis/control_flow/function_extent_analyzer.cc:107-232 | The reported intervals are in ascending order, pairwise disjoint and non-empty, each inside one code region, and are exactly (as a multiset) the swept and carved functions: the final filter drops nothing. |
| ExtentTheorems.EntriesAreCoveredOnce | src/analysis/control_flow/function_extent_analyzer.cc:89-146 | Every usable entry, strong or soft, lies in exactly one reported function. |
| ExtentTheorems.EntryIsDemotedOnlyInside | src/analysis/control_flow/function_extent_analyzer.cc:114-146 | A usable entry starts no reported function if and only if it lies strictly inside a function swept from an earlier entry. |
| ExtentTheorems.StrongEntryFate | src/analysis/control_flow/function_extent_analyzer.cc:114-146 | A usable strong entry starts no reported function if and only if it lies strictly inside one whose end came from a stated size; an end found by control flow never swallows it. |
| FunctionExtents.EndOfShape | src/analysis/control_flow/function_extent_analyzer.cc:66-83 | The extent of an entry is non-empty and ends inside the entry's region; without a stated size, fallback word included, it never passes the next strong entry. |
| ExtentTheorems.StartedEntryHasItsExtent | src/analysis/control_flow/function_extent_analyzer.cc:114-232 | A usable entry starts a reported function if and only if the interval its extent specifies is reported. |
| ExtentTheorems.StatedSizeFate | src/analysis/control_flow/function_extent_analyzer.cc:130-146 | A stated size is reported as it stands, cut off only at the end of the region, if and only if no reported function with a stated size strictly contains its entry. |
| ExtentTheorems.GapWordsAreRejected | src/analysis/control_flow/function_extent_analyzer.cc:159-211 | Every aligned word of a region outside all reported functions was rejected for a stated reason: padding, undecodable, or no plausible graph up to the end of its gap. |
| ExtentTheorems.ReportedFunctionsAreJustified | src/analysis/control_flow/function_extent_analyzer.cc:114-211 | Every reported function either starts at a usable entry and has that entry's extent, or, only with gap discovery on, lies whole in a gap of its region: from a word no swept function covers, neither padding nor undecodable, to the end of the plausible graph bounded by that gap. |
| ExtentTheorems.ClampIsIdle | src/analysis/control_flow/function_extent_analyzer.cc:173-174 | Once every usable entry is swept, the next strong entry after a word of a gap is never before the end of that gap, so the clamp to it shortens no gap function. |
| ExtentTheorems.GapEndIsUnique | src/analysis/control_flow/function_extent_analyzer.cc:197-210 | The gap a word belongs to, and so the bound its graph is built under, is determined by the region and the swept functions alone. |
| FunctionExtentAnalyzers.FunctionExtentAnalyzer.AnalyzeWith | src/analysis/control_flow/function_extent_analyzer.cc:34-238 | From any consistent cache, however warm, the result is the one report of the sets of strong and soft entries, the stated sizes and the options: the order and repetition of inputs and past queries do not show. |
| FunctionExtentAnalyzers.FunctionExtentAnalyzer.Analyze | src/analysis/control_flow/function_extent_analyzer.cc:29-239 | The public operation, which starts from an empty cache, returns that same report. |
| FunctionExtentAnalyzers.FunctionExtentAnalyzer.SweepCandidates | src/analysis/control_flow/function_extent_analyzer.cc:110-146 | The loop over sorted candidates, with `lastAddr` and `coverEnd` updated in place, emits exactly the greedy sweep over the set of entries. |
| FunctionExtentAnalyzers.FunctionExtentAnalyzer.EndFor | src/analysis/control_flow/function_extent_analyzer.cc:125-139 | The end chosen for a candidate is the extent specified for its address, whichever copy of it came first. |
| FunctionExtentAnalyzers.FunctionExtentAnalyzer.CfgExtentEnd | src/analysis/control_flow/function_extent_analyzer.cc:66-83 | The end of the graph built at the entry, or one word (at most to the region's end) when it covers nothing; which graph end each reported function has is `ReportIsDetermined`. |
| FunctionExtentAnalyzers.FunctionExtentAnalyzer.NextStrongAfter | src/analysis/control_flow/function_extent_analyzer.cc:53-56 | Binary search over the sorted strong entries gives the least usable one above the address, or the invalid address. |
| FunctionExtentAnalyzers.FunctionExtentAnalyzer.CarveGap | src/analysis/control_flow/function_extent_analyzer.cc:161-195 | The cursor loop appends exactly the functions specified for the gap. |
| FunctionExtentAnalyzers.FunctionExtentAnalyzer.CarveRegion | src/analysis/control_flow/function_extent_analyzer.cc:160-210 | Walking the swept functions in order carves exactly the gaps between them and the one that ends the region. |
| FunctionExtentAnalyzers.FunctionExtentAnalyzer.CarveRegions | src/analysis/control_flow/function_extent_analyzer.cc:150-214 | Carving region after region gives exactly the gap functions specified for the whole image. |
| FunctionExtentAnalyzers.FunctionExtentAnalyzer.Merge | src/analysis/control_flow/function_extent_analyzer.cc:222-232 | The final filter keeps each interval that is non-empty and starts no earlier than the last kept one ends. |
| CfgBuilders.BuildIsFaithful | src/analysis/control_flow/cfg_builder.cc:108-220 | A built graph covers part of the least set that holds the entry, if it may be covered, and is closed under control flow to whatever may be covered and is no boundary: all of it if and only if it is no larger than the cap; it is truncated when that set is larger, and never below the cap. |
| CfgBuilders.ReadingsAreOfCovered | src/analysis/control_flow/cfg_builder.cc:116-219 | The graph ends behind its last covered instruction, or at the entry when it covers none; it reaches a return if and only if it covers one; and the call targets are those of the direct calls it covers. |
| ControlFlowGraphs.CoveredIsFlowClosure | src/analysis/control_flow/cfg_builder.cc:112-211 | The same for the worklist alone, where what may be covered is a decodable word between the entry and the bound that is not four zero bytes, and control flows to branch targets and fall-throughs and, on request, past indirect branches. |
| ControlFlowGraphs.ReachableIsFlowClosure | src/analysis/control_flow/cfg_builder.cc:112-211 | The addresses reachable through what the builder schedules are that least set. |
| ControlFlowGraphs.ExploreIsReachable | src/analysis/control_flow/cfg_builder.cc:112-211 | A build never covers more than the cap and only addresses of the least set reachable from the entry through scheduled, coverable instructions, each by a path inside what is covered; it covers all of that set if and only if the set is no larger than the cap; it is truncated when the set exceeds the cap and not when it is smaller. |
| ControlFlowGraphs.CoveredShape | src/analysis/control_flow/cfg_builder.cc:120-174 | Every covered address is an aligned, decodable word that is no hard stop, lies between the entry and the bound, and is no boundary unless it is the entry. |
| ControlFlowGraphs.EntryIsCovered | src/analysis/control_flow/cfg_builder.cc:145-174 | A build that covers anything covers its entry. |
| ControlFlowGraphs.ExtentEndIsUnique | src/analysis/control_flow/cfg_builder.cc:116-175 | The extent end over a covered set is one definite address. |
| ControlFlowGraphs.TruncatedExtentIsLowerBound | src/analysis/control_flow/cfg_builder.cc:152-155 | A truncated build's extent end is at most that of the whole reachable set, and equal to it when the build is not truncated or the set is no larger than the cap. |
| Worklist.ReachableIsClosed | src/analysis/control_flow/cfg_builder.cc:151-211 | Reachability contains the accepted roots and is closed under accepted successors. |
| Worklist.ReachableIsLeast | src/analysis/control_flow/cfg_builder.cc:151-211 | It is inside every set closed that way. |
| Worklist.DrainIsReachable | src/analysis/control_flow/cfg_builder.cc:151-211 | Draining the worklist from any state its invariant allows visits a subset of the reachable set, each address reached inside that subset, and all of it if and only if it is no larger than the cap. |
| Worklist.AnyOrderIsReachable | src/analysis/control_flow/cfg_builder.cc:136-160 | Whatever order an uncapped worklist is emptied in, it visits the same reachable set and pops each enqueued address exactly once. |
| CfgBuilders.CfgBuilder.Build | src/analysis/control_flow/cfg_builder.cc:108-220 | The worklist loop returns the specified graph: covered set, truncation, the maximal end of covered instructions, whether a covered one returns, and its block graph; and it adds to the caller's set exactly the targets of covered direct calls. |
| CfgBuilders.CfgBuilder.IsSchedulable | src/analysis/control_flow/cfg_builder.cc:120-135 | The tests a target must pass to be scheduled, decided through the cache. |
| CfgBuilders.CfgBuilder.Schedule | src/analysis/control_flow/cfg_builder.cc:136-143 | A target enters the worklist once, and only if schedulable. |
| CfgBuilders.CfgBuilder.ScheduleSuccessors | src/analysis/control_flow/cfg_builder.cc:176-210 | The switch over flow types schedules exactly the successors the graph specification names, in its order. |
| CfgBuilders.CfgBuilder.AppendSuccessors | src/analysis/control_flow/cfg_builder.cc:15-48 | The edges appended are those of the instruction's flow type whose targets are covered. |
| BasicBlocks.SuccessorsAreFlows | src/analysis/control_flow/cfg_builder.cc:15-48 | A block has an edge to an address if and only if the address is covered and its last instruction falls through or branches to it. |
| BasicBlocks.SuccessorsAreEdges | src/analysis/control_flow/cfg_builder.cc:15-48 | There is an edge of a kind to an address if and only if the address is covered and the instruction branches to it, falls through to it, or returns to it from a call, as the kind says; and there is one of a kind. |
| CfgBuilders.CfgBuilder.FindLeaders | src/analysis/control_flow/cfg_builder.cc:58-78 | For any covered set, decodable or not, the leader scan finds the entry and, among covered addresses, those after or targeted by a decodable terminator, and no others. |
| CfgBuilders.CfgBuilder.FormBlocks | src/analysis/control_flow/cfg_builder.cc:80-101 | The single pass that grows the current block in place, skipping what does not decode, yields one maximal run for every block start among the decodable covered addresses. |
| CfgBuilders.CfgBuilder.BuildBlocks | src/analysis/control_flow/cfg_builder.cc:50-102 | The blocks of any covered set are a block graph of its decodable addresses, whose edges also name the covered addresses that do not decode. |
| CfgBuilders.DecodedSplitting | src/analysis/control_flow/cfg_builder.cc:50-102 | When every covered address decodes, as in a built graph, they are exactly a block graph of the covered set. |
| BasicBlocks.EveryInstructionInABlock | src/analysis/control_flow/cfg_builder.cc:82-99 | Every covered instruction lies in a block. |
| BasicBlocks.BlocksAreDisjoint | src/analysis/control_flow/cfg_builder.cc:82-99 | No address lies in two blocks. |
| BasicBlocks.BlocksAreContiguous | src/analysis/control_flow/cfg_builder.cc:87-98 | A block has a covered instruction at each of its words. |
| BasicBlocks.TerminatorIsLast | src/analysis/control_flow/cfg_builder.cc:65-69 | A block terminator is only ever the last instruction of its block. |
| BasicBlocks.BlockStartsAre | src/analysis/control_flow/cfg_builder.cc:58-93 | A block starts at a covered address if and only if that is the entry, follows a hole or a branch, indirect branch or return, or is the target of a covered branch: blocks are no shorter than they have to be. |
| BasicBlocks.BranchTargetsStartBlocks | src/analysis/control_flow/cfg_builder.cc:70-76 | Every covered target of a covered branch starts a block. |
| BasicBlocks.EdgesLeadToBlocks | src/analysis/control_flow/cfg_builder.cc:94-98 | A block states the flow type of its last instruction; its edges are exactly the covered addresses that instruction flows to, each of its kind, and each of them starts a block. |
| BasicBlocks.BlocksKeepReachability | src/analysis/control_flow/cfg_builder.cc:50-102 | Between two block starts there is a path of block edges if and only if there is a path of instruction flows over covered instructions. |
| BasicBlocks.EveryBlockReachable | src/analysis/control_flow/cfg_builder.cc:178-216 | Without linear decoding past indirect branches, every block of a built graph, truncated or not, is reachable from the entry's block. |
| RecursiveDisassemblers.DiscoveryIsDescent | src/analysis/recursive_disassembler.cc:17-99 | Discovery decodes part of the least set that holds the seeds that decode and is closed under control flow and direct calls to what decodes, all of it if and only if it is no larger than the cap; even when capped, only seeds and what decoded instructions lead to; and its starts are the seeds in code and the in-code targets of the direct calls it decoded. |
| RecursiveDisassemblers.ClosureIsDescent | src/analysis/recursive_disassembler.cc:23-93 | The closure of the traversal's graph is that least set. |
| RecursiveDisassemblers.DecodedIsLedTo | src/analysis/recursive_disassembler.cc:42-93 | Whatever a traversal decodes, capped or not, is a seed or is led to by something it decoded. |
| RecursiveDisassemblers.TraverseIsClosure | src/analysis/recursive_disassembler.cc:35-93 | The traversal decodes a subset of the closure of the usable seeds, at most the cap, and the whole closure if and only if that is no larger than the cap, as it is whenever work did not remain at the cap. |
| RecursiveDisassemblers.DiscoveryIsClosure | src/analysis/recursive_disassembler.cc:17-99 | The instruction sizes discovery reports are keyed by a subset of that closure, and by all of it if and only if the closure is no larger than the cap. |
| RecursiveDisassemblers.DiscoveryIgnoresSeedOrder | src/analysis/recursive_disassembler.cc:35-93 | When the closure is no larger than the cap, discoveries from seed lists with the same elements give equal results. |
| RecursiveDisassemblers.RecursiveDisassembler.Discover | src/analysis/recursive_disassembler.cc:17-99 | The worklist loop decodes what the traversal specifies, and its starts are exactly the seeds in code and the in-code targets of decoded direct calls. |
| FunctionAnalyzers.FunctionAnalyzer.Analyze | src/analysis/function_analyzer.cc:25-136 | The whole analysis reports the extents of the trusted starts and their discovered callees, ascending, each with its size, last instruction, resolved name and whether a symbol gave it. |
| PipelineMeanings.TaskIs | src/analysis/function_analyzer.cc:36-104 | The strong entries of the analysis asked for are the trusted addresses in code; the sizes are the first stated ones, symbols' before unwind ranges'; the soft entries are, when the descent closure fits the cap, exactly the other seeds and in-code callees of it, and otherwise some of those; gaps are searched, past indirect branches, for graphs that return or hold two instructions. |
| PipelineMeanings.SourcesAre | src/analysis/function_analyzer.cc:51-69 | What is consulted is, each under its option, the defined function symbols, a non-zero entry point, and the unwind ranges. |
| PipelineMeanings.SizesAre | src/analysis/function_analyzer.cc:44-69 | An address has a stated size if and only if that is the first non-zero one of its function symbols or, when these state none, of the unwind ranges that start there. |
| PipelineMeanings.TrustedAreCovered | src/analysis/function_analyzer.cc:51-104 | Every aligned in-code address of a defined function symbol, the entry point or an unwind range lies in exactly one reported function. |
| PipelineMeanings.ReportIs | src/analysis/function_analyzer.cc:118-128 | Each reported function has its interval's start, end and length, its last whole word as last instruction, and the name resolved for its start. |
| FunctionAnalyzers.TrustedStartsAreCovered | src/analysis/function_analyzer.cc:51-104 | Every usable address of whatever list of sources is consulted lies in exactly one reported function. |
| FunctionAnalyzers.DecodedCalleesAreCovered | src/analysis/function_analyzer.cc:76-104 | Every usable direct-call target of an instruction discovery decoded lies in exactly one reported function, cap hit or not. |
| FunctionAnalyzers.ReachableCalleesAreCovered | src/analysis/function_analyzer.cc:76-104 | When the closure of the seeds is no larger than the cap, every usable direct-call target of an instruction of the closure lies in exactly one reported function. |
| FunctionAnalyzers.StatedRangesHold | src/analysis/function_analyzer.cc:44-69 | When the ranges stated by symbols and unwind information do not overlap, every usable one is reported as stated, cut off only at the end of its region. |
| FunctionAnalyzers.UnwindRangesAreReported | src/analysis/function_analyzer.cc:63-131 | End to end: if the file's .eh_frame was laid out from a list of entries and neither its ranges nor the sized symbols consulted overlap, the report holds every usable non-empty range whole, up to the end of its region. |
| FunctionAnalyzers.FirstSizeHolds | src/analysis/function_analyzer.cc:44-49 | Of several non-zero sizes stated for an address the first one stands. |
| FunctionAnalyzers.FunctionAnalyzer.GatherSources | src/analysis/function_analyzer.cc:36-69 | The loops over symbols, entry point and unwind ranges gather exactly the in-code starts and first stated sizes. |
| FunctionAnalyzers.FunctionAnalyzer.DiscoverMore | src/analysis/function_analyzer.cc:76-88 | Discovery is seeded with the trusted starts, or with the region starts when there are none. |
| FunctionAnalyzers.FunctionAnalyzer.LastInstructionOf | src/analysis/function_analyzer.cc:106-116 | Because every decoded size is four, the map lookup and the fallback always give the same answer: the last word of the function, or its start when it is shorter than a word. |
| FunctionAnalyzers.FunctionAnalyzer.Report | src/analysis/function_analyzer.cc:118-128 | One function for each interval, in the same order, with its size, last instruction, resolved name and symbol flag. |
| CodeMaps.IndexCovers | src/analysis/code_map.cc:9-69 | An address is in code if and only if the file data of some code section reaches it or, when the file holds the first byte of no code section, that of some executable segment does. |
| CodeMaps.IndexReadsSegment | src/analysis/code_map.cc:24-36 | Built from segments, the index reads from an address what the lookup reads at its segment's start, from there on. |
| CodeMaps.IndexAgreesWithImage | src/analysis/code_map.cc:9-79 | For an address of a code section, the region index gives the bytes and length the image lookup gives if and only if the file holds the first byte of some code section or no executable segment's bytes reach over the address; this is false in general, see the next row. |
| CodeMaps.IndexCanAnswerForUnbackedSection | src/analysis/code_map.cc:24-36 | For any file content from 184 bytes (room for its headers) to below 4096, one section and one segment header under which the lookup finds nothing at the start of the code section while the index, built from segments, answers with file bytes. |
| CodeMaps.RegionsAreValid | src/analysis/code_map.cc:9-47 | Regions built from sections or segments that do not overlap are sorted and pairwise disjoint. |
| CodeMaps.CodeMap.constructor | src/analysis/code_map.cc:9-47 | The two passes and the sort build the specified regions, and establish the index's invariant. |
| CodeMaps.CodeMap.RegionContaining | src/analysis/code_map.cc:60-69 | Binary search finds a region exactly when a scan from the front does, and the same one. |
| CodeMaps.CodeMap.At | src/analysis/code_map.cc:71-79 | The bytes from the address to the end of the region a scan would find. |
| ElfImages.ElfImage.DataAt | src/elf/elf_image.cc:25-64 | The two scans answer with the first mapped section spanning the address, else the first loadable segment, cut off at the end of the file. |
| ElfImages.LookupReadsSection | src/elf/elf_image.cc:25-43 | In a section that is allocated and has file data, the lookup gives the file's bytes at the section's offset, to the end of the section or the file. |
| ElfImages.LookupReadsSegment | src/elf/elf_image.cc:45-63 | Outside all of those it gives the bytes of the first loadable segment around the address in the same way, and nothing when there is none. |
| ElfImages.ElfImage.FindSection | src/elf/elf_image.cc:7-14 | The scan finds the first section of a name, or none when no section has it. |
| InstructionCaches.ReplayIsTransparent | src/analysis/control_flow/instruction_cache.cc:12-46 | After any sequence of queries the cache answers the next one as a fresh decode would, and its counter is the number of distinct decodable addresses asked for. |
| InstructionCaches.QueryIsFresh | src/analysis/control_flow/instruction_cache.cc:12-46 | One query of any consistent cache answers as a fresh decode, keeps the cache consistent, and adds at most its own address to the valid entries. |
| InstructionCaches.InstructionCache.At | src/analysis/control_flow/instruction_cache.cc:12-46 | The memoising lookup answers as a fresh decode and changes the entries and the counter as one query does. |
| InstructionCaches.ReadWord | src/analysis/control_flow/code_patterns.cc:7-18 | Or-ing four shifted bytes reads the little-endian word, when four bytes of the region are left. |
| InstructionCaches.IsPadding | src/analysis/control_flow/code_patterns.cc:20-26 | Padding is an unreadable, zero or no-op word. |
| InstructionCaches.IsHardStop | src/analysis/control_flow/code_patterns.cc:28-34 | A hard stop is an unreadable or zero word. |
| Code.StopsArePadding | src/analysis/control_flow/code_patterns.cc:7-34 | A word is a hard stop if and only if fewer than four bytes of its region are left or they are all zero, and padding if and only if it is one or the bytes of the no-op, 1f 20 03 d5. |
| Code.InsnIsDecode | src/analysis/control_flow/instruction_cache.cc:12-46 | There is an instruction only at an aligned address with a whole word left in its region, and it is then what the decoder makes of the region's bytes from there on. |
| Code.UsableIs | src/analysis/control_flow/function_extent_analyzer.cc:38-40 | An address is usable if and only if it is a multiple of four inside some region. |
| ByteReaders.ByteReader.ReadUleb128 | src/common/byte_reader.cc:111-125 | Returns the base-128 sum modulo 2^64 of the terminated sequence at the cursor, overlong or not, and consumes exactly it; an unterminated one overruns. |
| ByteReaders.ByteReader.ReadSleb128 | src/common/byte_reader.cc:127-143 | Returns the signed base-128 sum modulo 2^64, sign-extended from the last byte, of the terminated sequence at the cursor, and consumes exactly it; an unterminated one overruns. |
| ByteReaders.AccumulateStep | src/common/byte_reader.cc:114-124 | Or-ing in seven more bits, truncated to 64, or dropping them once 64 are full, keeps the accumulator equal to the sum modulo 2^64. |
| ByteReaders.SignExtend | src/common/byte_reader.cc:139-142 | Filling the bits above the last byte with ones, when any are left, gives the signed sum modulo 2^64. |
| Leb128.SignedIsShifted | src/common/byte_reader.cc:127-143 | The signed sum is the unsigned one less the weight of the sign bit. |
| Leb128.UnsignedRoundTrip | src/common/byte_reader.cc:111-125 | Reading undoes canonical writing for every unsigned 64-bit value, wherever it stands. |
| Leb128.SignedRoundTrip | src/common/byte_reader.cc:127-143 | Reading undoes canonical writing for every signed 64-bit value. |
| Leb128.EncodeUnsignedSums | src/common/byte_reader.cc:111-125 | The canonical encoding of a natural number sums to it. |
| Leb128.EncodeSignedSums | src/common/byte_reader.cc:127-143 | The canonical encoding of an integer sums to it. |
| ByteReaders.ByteReader.U16 | src/common/byte_reader.cc:35-39 | Shift and or give the little-endian number of two bytes; out of bounds it overruns. |
| ByteReaders.ByteReader.U32 | src/common/byte_reader.cc:41-47 | Shift and or give the little-endian number of four bytes; out of bounds it overruns. |
| ByteReaders.ByteReader.U64 | src/common/byte_reader.cc:49-56 | The loop from the top byte down gives the little-endian number of eight bytes. |
| ByteReaders.ByteReader.Seek | src/common/byte_reader.cc:72-78 | The cursor moves anywhere up to the end of the data and stays put past it. |
| ByteReaders.ByteReader.ReadCString | src/common/byte_reader.cc:145-152 | The bytes up to the first zero or the end, and a cursor past that zero if there is one. |
| EhFrameLayout.SectionRoundTrip | src/analysis/eh_frame_parser.cc:181-265 | For any well-formed list of CIEs and FDEs laid out as in section 10.6.1 of the Linux Standard Base Core Specification, in the 32-bit length form or in the 64-bit one with the 8-byte id the program reads, the walk returns exactly the non-empty ranges in order, whether the section just ends or has a terminator followed by anything. |
| EhFrameLayout.FrameHeader | src/analysis/eh_frame_parser.cc:186-204 | An entry written in either form is read back with its id, the start of its body and its end. |
| EhFrameLayout.StandardWideHeader | src/analysis/eh_frame_parser.cc:187-206 | Of an entry in the 64-bit form with the standard's 4-byte id, the first four bytes of the body are read as the upper half of the id, so it is taken for a CIE if and only if the id and those bytes are all zero. |
| EhFrameLayout.StandardWideCieIsMisread | src/analysis/eh_frame_parser.cc:204-258 | A CIE in the standard's 64-bit form, whose body starts with a non-zero version, is always walked as an FDE and its encoding never learnt. |
| EhFrameLayout.AppendedBytesKeepPrefix | src/analysis/eh_frame_parser.cc:181-265 | Whatever bytes follow, the ranges written stay a prefix of what is recovered. |
| EhFrameLayout.WalkUndoesLayout | src/analysis/eh_frame_parser.cc:181-265 | Walking over the first k entries yields their ranges and continues behind them knowing the encodings of their CIEs. |
| EhFrameLayout.CieRoundTrip | src/analysis/eh_frame_parser.cc:206-241 | A CIE of any version, with any mix of P, L, R and S items and then any unknown letters, or with any other kind of name, reads back as the encoding its last R item states, or the absolute one. |
| EhFrameLayout.AugmentedRoundTrip | src/analysis/eh_frame_parser.cc:224-238 | The loop over augmentation letters reads back any list of items, personality pointers included. |
| EhFrameLayout.FdeRoundTrip | src/analysis/eh_frame_parser.cc:248-258 | An FDE written under a usable encoding reads back as its range, or as none when the range is empty. |
| EhFrameLayout.PointerRoundTrip | src/analysis/eh_frame_parser.cc:120-169 | A pointer written relative to nothing, itself or the section decodes to the address it stands for, modulo 2^64. |
| EhFrameLayout.RawRoundTrip | src/analysis/eh_frame_parser.cc:132-149 | Every value a format can hold, for the signed ones every signed number of that width, reads back from it. |
| EhFrameLayout.WideningKeepsSign | src/analysis/eh_frame_parser.cc:140-145 | A two- or four-byte number that stands for a signed one is widened to that number's 64-bit two's complement. |
| EhFrameLayout.EncodingParts | src/analysis/eh_frame_parser.cc:128-167 | The low four bits of an encoding are its format and the top one marks it indirect; of the three between, 1 adds the field's own address, 3 the section's, and any other nothing. |
| EhFrameLayout.UnusableGivesNothing | src/analysis/eh_frame_parser.cc:124-153 | FDEs with omitted or indirect pointers, or pointers in no known format, give no function. |
| EhFrameLayout.UnseenCieIsAbsolute | src/analysis/eh_frame_parser.cc:243-246 | An FDE whose CIE was not seen is read with absolute 8-byte pointers. |
| EhFrameLayout.SectionIsFoundByName | src/analysis/eh_frame_parser.cc:74-88 | The first section named .eh_frame, when the file maps it, is the one walked, as far as it is mapped. |
| EhFrameLayout.HeaderIsFoundByName | src/analysis/eh_frame_parser.cc:42-56 | So is the first one named .eh_frame_hdr the header. |
| EhFrameLayout.HeaderIsFoundBySegment | src/analysis/eh_frame_parser.cc:57-71 | Without a section of that name it is the first GNU_EH_FRAME segment that maps anything. |
| EhFrameLayout.SectionIsFoundByHeader | src/analysis/eh_frame_parser.cc:90-117 | Without a section named .eh_frame, what is walked is everything mapped at the address written behind the header's first four bytes in the encoding of its second. |
| EhFrameParsers.EhFrameParser.Parse | src/analysis/eh_frame_parser.cc:171-270 | The section located in the file is walked as specified, on arbitrary bytes. |
| EhFrameParsers.EhFrameParser.WalkEntries | src/analysis/eh_frame_parser.cc:181-265 | The cursor loop with its map of CIE encodings returns what the specified walk yields, stopping at the first overrun with what it has. |
| EhFrameParsers.EhFrameParser.LocateEhFrameHdr | src/analysis/eh_frame_parser.cc:42-72 | The header is the mapped part of the section of its name, or of the first segment of its type that maps anything. |
| EhFrameParsers.EhFrameParser.LocateEhFrame | src/analysis/eh_frame_parser.cc:74-118 | The section is the mapped part of the one of its name, or everything mapped where the header's pointer leads; an overrun or an unusable pointer finds none. |
| EhFrameParsers.EhFrameParser.DecodePointer | src/analysis/eh_frame_parser.cc:120-169 | Decoding at the cursor gives the specified pointer and leaves the cursor behind it. |
| EhFrameParsers.EhFrameParser.ReadRaw | src/analysis/eh_frame_parser.cc:132-149 | The switch over formats reads the stored number; an unknown format leaves the cursor in place. |
| EhFrameParsers.EhFrameParser.ReadHeader | src/analysis/eh_frame_parser.cc:186-204 | Lengths of both forms, with an entry end computed modulo 2^64, are accepted exactly when the entry lies inside the section. |
| EhFrameParsers.EhFrameParser.ReadCie | src/analysis/eh_frame_parser.cc:207-240 | A CIE's fields and augmentation are read as specified, or overrun. |
| EhFrameParsers.EhFrameParser.ReadAugmentation | src/analysis/eh_frame_parser.cc:223-238 | The letter loop settles on the specified encoding, stopping at an unknown letter. |
| EhFrameParsers.EhFrameParser.ReadFde | src/analysis/eh_frame_parser.cc:248-258 | An FDE yields its range only when both pointers are usable and it is not empty. |
| GnuHashLayouts.CountUndoesLayout | src/elf/elf_parser.cc:362-399 | For any written GNU hash table, with a bloom filter, any buckets of hashes and the symbols numbered in their order, counting its symbols gives their number, whatever follows the table. |
| GnuHashLayouts.HashTableStatesCount | src/elf/elf_parser.cc:350-360 | A DT_HASH table's count is its second word, unless that is zero. |
| GnuHashLayouts.TableSizeStatesCount | src/elf/elf_parser.cc:401-404 | A symbol table with the string table behind it is counted by its size. |
| SymbolCounts.GnuHashCountsSymbols | src/elf/elf_parser.cc:362-399 | For any GNU hash table whose chains tile the hashed symbols back to back, the walk of the chain that starts last returns exactly the total symbol count. |
| SymbolCounts.DynamicSymbolCount | src/elf/elf_parser.cc:347-405 | DT_HASH first, then the GNU table, then the distance between the tables: the first that gives a number, on arbitrary bytes. |
| SymbolCounts.CountGnuHash | src/elf/elf_parser.cc:362-399 | The count by bucket scan and chain walk, which ends and stays in bounds on arbitrary bytes. |
| SymbolCounts.LargestBucket | src/elf/elf_parser.cc:374-380 | The bucket loop finds the greatest bucket value. |
| SymbolCounts.FollowChain | src/elf/elf_parser.cc:384-395 | The chain loop finds the first word with its low bit set, or the end of the data. |
| NameResolvers.ChosenIsBest | src/symbol/name_resolver.cc:13-36 | The symbol chosen for an address is the first of the highest binding rank among the defined, named function symbols there, and there is none only when no such symbol exists. |
| NameResolvers.NamesAreOfStrongest | src/symbol/name_resolver.cc:13-61 | A function is named by the first of the strongest defined, named function symbols at its start, global before weak before local before any other binding, demangled on request; without one it is sub_ and its address. |
| NameResolvers.SyntheticNameIs | src/symbol/name_resolver.cc:47-50 | That address is in upper-case hexadecimal, without leading zeros. |
| NameResolvers.NameResolver.constructor | src/symbol/name_resolver.cc:13-27 | The loop over symbols, replacing names and ranks in place, ends with exactly the chosen symbols' names. |
| NameResolvers.NameResolver.HasSymbol | src/symbol/name_resolver.cc:38-40 | Whether a symbol was chosen for the address. |
| NameResolvers.NameResolver.NameFor | src/symbol/name_resolver.cc:52-61 | The chosen symbol's name, demangled when that is enabled, or a name made from the address. |
| NameResolvers.SyntheticNamesDiffer | src/symbol/name_resolver.cc:47-50 | Made-up names of different addresses differ. |
| ItaniumDemanglers.Demangle | src/symbol/itanium_demangler.cc:598-616 | Every well-formed encoding without numbered substitutions and template arguments (names plain, in std or nested with member qualifiers, made of source names, operators, constructors, destructors and standard abbreviations; types of builtin and class types under pointers, references, cv-qualifiers and function types), with either prefix, demangles to what its tree prints if no parameter nests deeper than the limit, and comes back unchanged if one does; so does every name without a prefix. |
| Mangling.SuffixesAreSpelled | src/symbol/itanium_demangler.cc:473-498 | Pointers and references print as *, & and && and cv-qualifiers as words, behind what they apply to. |
| Mangling.QualifiersAreSpelled | src/symbol/itanium_demangler.cc:475-484 | Of several qualifiers the one mangled last is printed first. |
| Mangling.NamesAreSpelled | src/symbol/itanium_demangler.cc:263-290 | Parts are joined by "::", constructors repeat the name before them and destructors put ~ before it. |
| Mangling.ParametersAreSpelled | src/symbol/itanium_demangler.cc:171-185 | Parameters are joined by ", " in parentheses, none for a lone void; a variable has no parentheses, and a function type has a space before them. |
| Mangling.BuiltinCodes | src/symbol/itanium_demangler.cc:22-36 | The codes of section 5.1.5 of the Itanium C++ ABI name their types, from void to unsigned int. |
| Mangling.MoreBuiltinCodes | src/symbol/itanium_demangler.cc:22-36 | The codes for long to __float128 and the ellipsis name their types. |
| Mangling.ExtendedCodes | src/symbol/itanium_demangler.cc:546-562 | The codes behind D name their types. |
| Mangling.StandardCodes | src/symbol/itanium_demangler.cc:356-367 | The abbreviations behind S name their entities. |
| Mangling.TypeLetters | src/symbol/itanium_demangler.cc:22-36 | No letter but these codes names a builtin type, an extended type or a standard entity. |
| Mangling.ArithmeticCodes | src/symbol/itanium_demangler.cc:38-65 | The operator codes of section 5.1.3 for memory and arithmetic name their operators. |
| Mangling.AssignmentCodes | src/symbol/itanium_demangler.cc:38-65 | The bitwise and assignment operator codes name their operators. |
| Mangling.OtherCodes | src/symbol/itanium_demangler.cc:38-65 | The shift, comparison, logical and remaining operator codes name their operators. |
| ItaniumDemanglers.Parser.Run | src/symbol/itanium_demangler.cc:70-76 | The same with an empty result in place of the unchanged name. |
| ItaniumDemanglers.Parser.ParseEncoding | src/symbol/itanium_demangler.cc:167-185 | A name and a run of types up to the end of the string or an E print as a declaration; it fails exactly when a type nests too deep. |
| ItaniumDemanglers.Parser.JoinParameters | src/symbol/itanium_demangler.cc:174-181 | The loop prints a comma-separated list, and nothing for a lone void. |
| ItaniumDemanglers.Parser.ParseBareFunctionType | src/symbol/itanium_demangler.cc:187-195 | Any run of well-formed types up to the end of the string or an E is split back into exactly those types, unless one nests too deep. |
| ItaniumDemanglers.Parser.ParseName | src/symbol/itanium_demangler.cc:197-233 | Any plain, std or nested name not followed by template arguments reads back as its printed form, and not as a template. |
| ItaniumDemanglers.Parser.ParseStandardName | src/symbol/itanium_demangler.cc:204-222 | Unless template arguments follow, a name that starts with a substitution is read exactly as that prefix; any name of the fragment in namespace std reads back qualified by it. |
| ItaniumDemanglers.Parser.ParseNestedName | src/symbol/itanium_demangler.cc:241-309 | Any nested name reads back as its parts joined by "::", member qualifiers skipped and constructors and destructors named after the part before them, if and only if one more level of nesting is left. |
| ItaniumDemanglers.Parser.SkipMemberQualifiers | src/symbol/itanium_demangler.cc:243-244 | All cv-qualifiers are skipped and then at most one reference qualifier. |
| ItaniumDemanglers.Parser.ParseComponent | src/symbol/itanium_demangler.cc:250-299 | Unless template arguments follow, it succeeds if and only if a part does and one more level of nesting is left, and then appends its text to what precedes it; the depth is restored. |
| ItaniumDemanglers.Parser.ReadComponent | src/symbol/itanium_demangler.cc:263-293 | On any input it succeeds if and only if a substitution, constructor, destructor or unqualified name follows, and then with its text and the name later constructors repeat; any part of the fragment reads back as its text. |
| ItaniumDemanglers.Parser.ParseUnqualifiedName | src/symbol/itanium_demangler.cc:311-326 | On any input it succeeds if and only if a source name or an operator code follows, and then with that name, right behind it. |
| ItaniumDemanglers.Parser.ParseSourceName | src/symbol/itanium_demangler.cc:328-349 | On any input it succeeds if and only if a maximal run of digits is followed by at least as many characters as it says, and then with those characters; a written identifier reads back as itself, and the early exit on a length beyond the string rejects nothing. |
| ItaniumDemanglers.WrittenIsRead | src/symbol/itanium_demangler.cc:328-349 | An identifier that starts with no digit, written behind its decimal length, is what follows the maximal run of digits. |
| ItaniumDemanglers.Parser.ParseType | src/symbol/itanium_demangler.cc:468-544 | Any type of the fragment reads back as its printed form and the cursor stops right behind it, if and only if its depth fits under the limit. |
| ItaniumDemanglers.Parser.ParseTypeBody | src/symbol/itanium_demangler.cc:471-544 | The same one level down: the first character decides the branch. |
| ItaniumDemanglers.Parser.ParseQualified | src/symbol/itanium_demangler.cc:473-489 | A run of cv-qualifiers prints behind its base, outermost last. |
| ItaniumDemanglers.Parser.ParsePointer | src/symbol/itanium_demangler.cc:490-498 | A pointer or reference prints as its base and a suffix. |
| ItaniumDemanglers.Parser.ParseClass | src/symbol/itanium_demangler.cc:521-530 | Unless template arguments follow, it is read exactly as a source name; a class type of the fragment reads back as its name. |
| ItaniumDemanglers.Parser.ParseStandardType | src/symbol/itanium_demangler.cc:502-517 | Unless template arguments follow, a substitution, or a name in namespace std, is read exactly as that prefix; a standard abbreviation or type in std of the fragment reads back as its printed form. |
| ItaniumDemanglers.Parser.ParseStandardPrefix | src/symbol/itanium_demangler.cc:503-510 | On any input it succeeds if and only if a substitution follows and, when that is the namespace std with a name begun behind it, that name does; then the result is the component, qualified name or abbreviation. |
| ItaniumDemanglers.Parser.ParseBuiltin | src/symbol/itanium_demangler.cc:537-543 | It succeeds if and only if the letter names a builtin type, and then with that name, one letter on. |
| ItaniumDemanglers.Parser.ParseExtendedBuiltin | src/symbol/itanium_demangler.cc:546-562 | It steps two letters on and succeeds if and only if the second names an extended builtin type, even past the end of the string. |
| ItaniumDemanglers.Parser.ParseTemplateArgs | src/symbol/itanium_demangler.cc:389-412 | On any input it ends, moves the cursor forward inside the string when it succeeds, and restores the depth. |
| ItaniumDemanglers.Parser.ParseTemplateArg | src/symbol/itanium_demangler.cc:414-441 | On any input it ends, moves the cursor forward inside the string when it succeeds, and restores the depth. |
| ItaniumDemanglers.Parser.ParseFunctionType | src/symbol/itanium_demangler.cc:564-584 | Any function type reads back as its result and parameter list, if and only if its depth fits under the limit. |
| ItaniumDemanglers.Parser.ParseParameters | src/symbol/itanium_demangler.cc:569-580 | The loop over parameters, with its own rule for a lone void, lists exactly the parameters of the function type it is in. |
| ItaniumDemanglers.Parser.ParseExprPrimary | src/symbol/itanium_demangler.cc:443-466 | On any input it ends, moves the cursor forward inside the string when it succeeds, and restores the depth. |
| ItaniumDemanglers.Parser.ParseSubstitution | src/symbol/itanium_demangler.cc:351-387 | It succeeds if and only if a standard abbreviation or the number of a remembered component follows, and then with that name or component. |
| ItaniumDemanglers.Parser.ParseSeqId | src/symbol/itanium_demangler.cc:140-153 | An underscore stands for the first index and a base-36 number and an underscore for the one after it, modulo the width of an index; anything else fails. |
| ItaniumDemanglers.Parser.ParseTemplateParam | src/symbol/itanium_demangler.cc:138-165 | It succeeds if and only if the number of a template argument follows, and then with that argument, which it remembers. |
| ItaniumDemanglers.Parser.AddSub | src/symbol/itanium_demangler.cc:100-105 | A component is remembered in order of first appearance, and never twice: that the components are distinct is an invariant of the whole parser. |

## Left out

- ItaniumDemanglers.Demangle: says nothing of encodings with numbered substitutions or template arguments, whose meaning rests on a string-based de-duplication that differs from the standard's.
- ItaniumDemanglers.Parser.Run: likewise.
- ItaniumDemanglers.Parser.ParseEncoding: likewise, and so not which parameter is dropped as a template's return type.
- ItaniumDemanglers.Parser.ParseBareFunctionType: likewise for types with such parts.
- ItaniumDemanglers.Parser.ParseName: likewise for names with template arguments.
- ItaniumDemanglers.Parser.ParseNestedName: likewise; also not for a first part that is an operator spelled with a leading r, which the loop over member qualifiers takes for restrict. A first part names a scope, and operators are none.
- ItaniumDemanglers.Parser.ParseComponent: likewise for template arguments as parts.
- ItaniumDemanglers.Parser.ParseType: likewise.
- ItaniumDemanglers.Parser.ParseTypeBody: likewise.
- ItaniumDemanglers.Parser.ParseClass: likewise for class types with template arguments.
- ItaniumDemanglers.Parser.ParseStandardType: likewise.
- ItaniumDemanglers.Parser.ParseStandardName: likewise.
- ItaniumDemanglers.Parser.ParseTemplateArgs: only that the parse ends inside the string at the depth it began.
- ItaniumDemanglers.Parser.ParseTemplateArg: likewise.
- ItaniumDemanglers.Parser.ParseExprPrimary: likewise; literals occur only in template arguments.
- EhFrameLayout.SectionRoundTrip: covers the 64-bit length form as the program reads it, with an 8-byte id where the standard has a 4-byte one (`src/analysis/eh_frame_parser.cc:204`); `StandardWideCieIsMisread` says what becomes of the standard's.
- Reading ELF headers, sections, segments and symbol tables (the rest of `src/elf/elf_parser.cc`): these entities are inputs.
- The vendored disassembler and the classification of its instructions into flow types: a decoding function stands for both. The demangler a name resolver is given is a function too.
- Address wrap-around at 2^64 in region ends, and overlapping sections: preconditions, as above.
- `std::sort` is not stable; where ties could show, the compared elements are equal, and an insertion sort specified as a function stands for it.
- Exceptions are values: an overrun is `None`, and the parser ends its walk there as its handler does.
- Logging, printing, command-line handling, file reading.
