# CPrime, verified models

CPrime is a single-pass C, C++ and assembler compiler with its own preprocessor,
linker symbol tables, debug writer and build driver. This project models its
state machines, indexes, allocators and printer/parser pairs in Dafny and proves
what they promise. `dafny verify dfyconfig.toml` checks it all.

| file | what it models |
|---|---|
| Wrappers.dfy | an optional value |
| Bits.dfy | masks on natural numbers |
| ElfSymbols.dfy | symbols as values: linear lookup, resolution of equal names, merging a file |
| SymbolTable.dfy | the growing symbol and string sections, the chained hash index, end-of-file merge in place, sorting |
| GnuHash.dfy | the GNU hash section and the permutation of the dynamic symbols, against the loader's lookup |
| Archives.dfy | extraction of archive members on demand, the quick rescan test, the fixpoint |
| TinyAlloc.dfy | the bump-arena allocator: allocation, growth, freeing, reset |
| MacroExpand.dfy | macro expansion, its termination, and hide sets |
| MacroCalls.dfy | what a call is replaced by, told from its text, and which calls are errors |
| Conditionals.dfy | the ifdef stack and the fast skipper against a recursive reading |
| Directives.dfy | what each conditional directive does to a run |
| IncludeGuard.dfy | include-guard detection and the soundness of the cache |
| TokenStream.dfy | token values packed into an int array and unpacked again |
| Numbers.dfy | integer constants with their overflow test, significands of binary floats |
| RawString.dfy | the raw-string scanner and the value of a raw literal |
| LineProgram.dfy | the DWARF line program writer against a decoder |
| ProjectOrder.dfy | project selection and ordering in the build driver |
| DepFile.dfy | dependency files, written by the compiler and read by the driver |
| Quoting.dfy | the two Windows argument quoters against the C runtime's splitting rules, response files against the compiler's |

Code that works in place is modelled in place: the symbol table, the allocator,
the preprocessor, the token string, the line writer, the linker and the driver
are classes whose methods follow the original's loops, each proved equal to a
specification function about which the lemmas speak. Buffers that grow are
sequences that the methods reassign, with an end mark and stale data beyond it
where the original relies on stale data.

Given as parameters: the hash of the old ELF index (any function), conditions of
`#if` and effects of text lines, the operators `#` and `##`, escapes other than a
doubled backslash, the loading of an object file and the search of weak externals.

Where the code does not do what one would expect, one lemma names an input and
another says for all inputs when it does:

| what fails | input | exactly when |
|---|---|---|
| "defined twice" depends on order once visibilities or kinds of sections differ | ElfSymbols.SameDefinitionTwiceCanClash, ElfSymbols.AbsoluteAfterCommonClashes | ElfSymbols.ResolutionExactly |
| a shrinking reallocation copies the old size | TinyAlloc.ShrinkingRun | TinyAlloc.Allocator.Realloc |
| the line opcode is computed in 32 bits | LineProgram.MisledFarAway | LineProgram.StepIsRight |
| TOK_CIMAGF loses its word | TokenStream.TokenReadsBack | TokenStream.StreamReadsBack |
| a second macro expansion changes the text | MacroExpand.FunctionLikeNotIdempotent | MacroExpand.SecondPassIff |
| the raw-string fallback would miss the end (such delimiters are refused) | RawString.FallbackNeedsTheExclusion | RawString.FallbackIsRightIff |
| the size check of the hash section does not cover its header (the program never gets there) | GnuHash.StaleHeader | GnuHash.DynamicTable.UpdateGnuHash |

## Model

| member | source | states |
|---|---|---|
| `ElfSymbols.Latest` | src/compiler/middleend/cprimeelf.c:514-540 | reference for lookup: the highest non-local symbol of a name below a limit, 0 when there is none |
| `ElfSymbols.DefinedStaysDefined` | src/compiler/middleend/cprimeelf.c:764-830 | no sequence of later same-named symbols turns a defined symbol into an undefined one |
| `ElfSymbols.VisibilityIsStrictest` | src/compiler/middleend/cprimeelf.c:767-777 | a defined symbol ends with the most constraining visibility ever given for its name, whatever the order |
| `ElfSymbols.KeeperStep` | src/compiler/middleend/cprimeelf.c:764-839 | one more symbol of any visibility keeps the description of the survivor: which definition is left, and with which st_other |
| `ElfSymbols.ReportNow` | src/compiler/middleend/cprimeelf.c:778-829 | a clash with the surviving symbol is exactly a report as told from the symbols alone |
| `ElfSymbols.ResolutionExactly` | src/compiler/middleend/cprimeelf.c:742-849 | over every sequence of same-named global and weak symbols, of any visibility, `.set` mark, section (absolute and other reserved ones included) and table: which definition is left and with which st_other, and "defined twice" is reported if and only if some visible strong definition is not, with the st_other merged so far, the first one taken, or finds none taken and cannot be taken itself |
| `ElfSymbols.ResolutionByRank` | src/compiler/middleend/cprimeelf.c:742-849 | where all share one visibility that is neither hidden nor internal, and no section is reserved except common, this says: the first one of the highest rank (undefined, weak, strong common or bss, strong elsewhere) is left, and a report is made if and only if two strong definitions outside common and bss differ and the table is not the DLL one |
| `ElfSymbols.SameDefinitionTwiceCanClash` | src/compiler/middleend/cprimeelf.c:770-787 | with mixed visibilities one and the same strong definition can clash with itself: a concrete hidden weak symbol in front of it |
| `ElfSymbols.AbsoluteAfterCommonClashes` | src/compiler/middleend/cprimeelf.c:799-830 | a concrete absolute symbol that clashes with the common one before it, though in the other order it keeps its place without a report |
| `ElfSymbols.AddEffect` | src/compiler/middleend/cprimeelf.c:742-849 | one addition leaves every other entry alone; the entry written keeps its name and stands for both symbols |
| `ElfSymbols.AddSeenFromName` | src/compiler/middleend/cprimeelf.c:742-849 | one addition seen from any name: other names keep their symbol, the own name keeps its index and is resolved |
| `ElfSymbols.MergeKeepsReferents` | src/compiler/middleend/cprimeelf.c:190-233 | after a whole file is merged every symbol of the file and every earlier one has a same-named successor; local definitions are carried over unchanged |
| `ElfSymbols.MergeResolvesEachName` | src/compiler/middleend/cprimeelf.c:190-233 | after a merge each name stands for the fold of exactly its own symbols, whatever else the file holds |
| `ElfSymbols.TwoSymbols` | src/compiler/middleend/cprimeelf.c:760-830 | what two symbols of one name and one default st_other come to, case by case from their bindings and section numbers, and when that is reported |
| `ElfSymbols.AddReports` | src/compiler/middleend/cprimeelf.c:742-830 | one addition is reported if and only if the name stands for a symbol already and folding the new one onto it clashes |
| `ElfSymbols.ToldMeans` | src/compiler/middleend/cprimeelf.c:190-233 | after a merge each name stands for what its symbols, the one before and those of the file in order, come to |
| `ElfSymbols.MergeReports` | src/compiler/middleend/cprimeelf.c:190-233 | a merge reports "defined twice" if and only if the symbols of some name clash |
| `ElfSymbols.MergeReportsExactly` | src/compiler/middleend/cprimeelf.c:190-233 | told from the symbols alone: it does if and only if some visible strong definition is reported among all symbols of its name |
| `ElfSymbols.ExportedKeeps` | src/compiler/middleend/cprimeelf.c:205-220 | at the end of a file an undefined local symbol becomes global and a weak one stays weak; the type goes exactly with a global binding in an object file; nothing else changes |
| `SymbolTables.CStrLocal` | src/compiler/middleend/cprimeelf.c:221-222 | a string read from the string table depends on no byte at or beyond its end |
| `SymbolTables.StrAppended` | src/compiler/middleend/cprimeelf.c:386-396 | appending a name makes it readable at the new offset and keeps every earlier string and everything past the write |
| `SymbolTables.SymAppended` | src/compiler/middleend/cprimeelf.c:464-484 | appending a symbol extends the table as seen through names by exactly that entry |
| `SymbolTables.ChainFindsLatest` | src/compiler/middleend/cprimeelf.c:514-533 | a bucket chain visits, highest first, every symbol a linear search could return, and only symbols of that bucket |
| `SymbolTables.IndexKeys` | src/compiler/middleend/cprimeelf.c:834-839 | patching a symbol in place, name and localness kept, leaves the index valid |
| `SymbolTables.PushKeepsIndex` | src/compiler/middleend/cprimeelf.c:485-510 | the incremental index update on insertion yields the index of the longer table |
| `SymbolTables.LinkStep` | src/compiler/middleend/cprimeelf.c:447-460 | each iteration of the rebuild extends the index by one symbol |
| `SymbolTables.UnreadName` | src/compiler/middleend/cprimeelf.c:202-223 | while the file is merged over its own storage the next unread name still reads as it was |
| `SymbolTables.UnreadNext` | src/compiler/middleend/cprimeelf.c:202-223 | adding one symbol never writes over a later unread symbol or name |
| `SymbolTables.Renumber` | src/compiler/middleend/cprimeelf.c:911-933 | exactly the relocations of sections linked to the table that name a symbol of the file are renumbered, in place, nothing else about them changes |
| `SymbolTables.RelocationsKeepReferents` | src/compiler/middleend/cprimeelf.c:190-226 | after end-of-file merge every relocation names a symbol of the same name; local definitions keep section and value |
| `SymbolTables.CountsAddUp` | src/compiler/middleend/cprimeelf.c:950-976 | locals and non-locals together are all symbols, so the two passes fill the new table exactly |
| `SymbolTables.CopyKind` | src/compiler/middleend/cprimeelf.c:950-976 | one pass of the sort appends the symbols of one kind in order and records where each went |
| `SymbolTables.LocalsFirst` | src/compiler/middleend/cprimeelf.c:939-980 | the sort is a stable locals-first permutation and its local count is the boundary |
| `SymbolTables.SymbolTable.constructor` | src/compiler/middleend/cprimeelf.c:290-306 | a new table holds the null symbol only, with an index of one bucket |
| `SymbolTables.SymbolTable.RebuildHash` | src/compiler/middleend/cprimeelf.c:426-461 | for any bucket count the rebuilt index agrees with the table; 0 keeps the bucket count |
| `SymbolTables.SymbolTable.PutStr` | src/compiler/middleend/cprimeelf.c:386-396 | the name and its NUL go to the end of the string section |
| `SymbolTables.SymbolTable.AppendSym` | src/compiler/middleend/cprimeelf.c:464-484 | one more entry; everything stale beyond the new ends is untouched |
| `SymbolTables.SymbolTable.PutSym` | src/compiler/middleend/cprimeelf.c:464-512 | the table grows by that entry, and the index keeps agreeing with it through growth, with at most two hashed symbols a bucket |
| `SymbolTables.SymbolTable.IndexNew` | src/compiler/middleend/cprimeelf.c:485-510 | the last entry joins its chain; the buckets double exactly when there are then more than two hashed symbols to each |
| `SymbolTables.SymbolTable.Find` | src/compiler/middleend/cprimeelf.c:514-540 | hash lookup equals linear search: the highest non-local symbol of the name, or 0; always 0 while hashing is off |
| `SymbolTables.SymbolTable.WalkChain` | src/compiler/middleend/cprimeelf.c:524-534 | the chain walk ends, and at the symbol a linear search would find |
| `SymbolTables.SymbolTable.PatchSym` | src/compiler/middleend/cprimeelf.c:834-839 | one entry is replaced, the index stays valid, stale storage is untouched |
| `SymbolTables.SymbolTable.ResolveSym` | src/compiler/middleend/cprimeelf.c:760-840 | the branches for an existing symbol compute the resolution, and count a clash when it is one |
| `SymbolTables.SymbolTable.SetSym` | src/compiler/middleend/cprimeelf.c:742-849 | the table becomes what adding the symbol to the abstract table says |
| `SymbolTables.SymbolTable.BeginFile` | src/compiler/middleend/cprimeelf.c:170-184 | the ends of both sections are remembered and the index is detached, the table unchanged |
| `SymbolTables.SymbolTable.ExportSlot` | src/compiler/middleend/cprimeelf.c:205-220 | in the stale tail an undefined symbol becomes global if it was local, and typeless if it is global then and a non-PE object is written; nothing else changes |
| `SymbolTables.SymbolTable.UpdateRelocs` | src/compiler/middleend/cprimeelf.c:911-933 | all relocation sections are renumbered, the symbol table is not touched |
| `SymbolTables.SymbolTable.Reattach` | src/compiler/middleend/cprimeelf.c:195-199 | cutting the sections back restores the table and index of before the file, and leaves the file unread in the tail |
| `SymbolTables.SymbolTable.MergeSym` | src/compiler/middleend/cprimeelf.c:202-223 | one symbol is read from the tail and added; the rest of the tail stays readable |
| `SymbolTables.SymbolTable.EndFile` | src/compiler/middleend/cprimeelf.c:190-226 | merging a file over its own storage gives exactly the merge from an untouched copy, with all relocations renumbered |
| `SymbolTables.SymbolTable.SortSyms` | src/compiler/middleend/cprimeelf.c:939-984 | the table is permuted locals first, stably, and every relocation keeps its symbol |
| `GnuHash.ElfGnuHash` | src/compiler/middleend/cprimeelf.c:1027-1035 | the 32-bit hash of a name |
| `GnuHash.OffsetIsForced` | src/compiler/middleend/cprimeelf.c:1013-1023 | a section can be read with one value of the first hashed index only: the number of undefined symbols |
| `GnuHash.OnlyInItsBucket` | src/compiler/middleend/cprimeelf.c:1106-1129 | in a section that keeps the format a defined symbol lies in the stretch of its own bucket, and the bloom filter lets it pass |
| `GnuHash.Lookup` | src/compiler/middleend/cprimeelf.c:1037-1160 | the loader's lookup (bloom test in the word that a mask selects, bucket, contiguous chain up to the low bit) returns only a defined symbol of that name, and finds one whenever there is one |
| `Bits.MaskIsModulo` | src/compiler/middleend/cprimeelf.c:1012-1014 | for a power of two the word that a loader selects with a mask is the one that was written with a remainder |
| `GnuHash.ReadableShows` | src/compiler/middleend/cprimeelf.c:1106-1129 | what a reader finds of every defined symbol: both its bits in its bloom word, its bucket beginning at it or before, its hash in its chain word, and no end mark before it |
| `GnuHash.ScanChain` | src/compiler/middleend/cprimeelf.c:1115-1127 | the scan of one chain ends at the word with the low bit set and misses no name in it |
| `GnuHash.CopyStep` | src/compiler/middleend/cprimeelf.c:1117-1118 | copying a symbol not copied before keeps the map from old to new places injective |
| `GnuHash.CopiedAll` | src/compiler/middleend/cprimeelf.c:1058-1129 | once every symbol is copied the new table has exactly the old length |
| `GnuHash.CountUndefined` | src/compiler/middleend/cprimeelf.c:1060-1084 | the number of undefined symbols, against which the section size is checked |
| `GnuHash.CopyUndefined` | src/compiler/middleend/cprimeelf.c:1058-1070 | hashes of the defined symbols, and the undefined ones copied first, in order |
| `GnuHash.LinkOneKeeps` | src/compiler/middleend/cprimeelf.c:1091-1104 | appending a symbol to its bucket's list keeps every list complete and increasing |
| `GnuHash.LinkBuckets` | src/compiler/middleend/cprimeelf.c:1087-1104 | the linked lists hold exactly the symbols of each bucket in increasing order |
| `GnuHash.Advance` | src/compiler/middleend/cprimeelf.c:1115-1126 | following a bucket's list copies each of its symbols exactly once |
| `GnuHash.FillBucket` | src/compiler/middleend/cprimeelf.c:1110-1128 | one bucket is filled: head, contiguous chain with end mark, bloom bits, symbols moved |
| `GnuHash.CreateGnuHash` | src/compiler/middleend/cprimeelf.c:990-1025 | the section has room for exactly the defined symbols, and its number of bloom words is a power of two |
| `GnuHash.FillEach` | src/compiler/middleend/cprimeelf.c:1106-1129 | all buckets together cut the defined symbols into consecutive stretches |
| `GnuHash.FillBuckets` | src/compiler/middleend/cprimeelf.c:1037-1131 | the symbol table is permuted, undefined symbols first and in order, and the section can be read |
| `GnuHash.HashIsWeighted` | src/compiler/middleend/cprimeelf.c:1027-1035 | the hash in closed form: each byte times 33 to the number of bytes behind it, and 5381 times 33 to the length, modulo 2^32 |
| `GnuHash.Refill` | src/compiler/middleend/cprimeelf.c:1037-1131 | with a header made for any number of undefined symbols the section is filled so that only that number decides whether it keeps the format |
| `GnuHash.PermuteVersions` | src/compiler/middleend/cprimeelf.c:1139-1153 | each version entry moves with its symbol |
| `GnuHash.DynamicTable.constructor` | src/compiler/middleend/cprimeelf.c:990-1025 | a dynamic table starts with a section sized for it |
| `GnuHash.DynamicTable.UpdateGnuHash` | src/compiler/middleend/cprimeelf.c:1037-1160 | the old-to-new map is a permutation with undefined symbols first, versions and relocations follow their symbols, and the section keeps the format if and only if its header was written for as many undefined symbols; with that header put right it always does |
| `GnuHash.LateOffsetHides` | src/compiler/middleend/cprimeelf.c:1020-1023 | a first hashed index above the first defined symbol hides that symbol from the lookup |
| `GnuHash.StaleHeader` | src/compiler/middleend/cprimeelf.c:1037-1084 | a concrete run in which the size check passes and the only defined symbol is not found, because an undefined one left the table after the header was written |
| `TinyAlloc.AdjSizeCovers` | src/compiler/frontend/cprimepp.c:429 | the 32-bit adjusted size covers the request exactly for sizes up to 2^32 - 24 |
| `TinyAlloc.GrowingCopyFits` | src/compiler/frontend/cprimepp.c:439-448 | for a growing block the copy of the old size is always safe |
| `TinyAlloc.ShrinkingCopyOverruns` | src/compiler/frontend/cprimepp.c:437-448 | a concrete shrinking reallocation for which the copy of the old size leaves the buffer |
| `TinyAlloc.CopySafeMeans` | src/compiler/frontend/cprimepp.c:437-471 | the condition of the safe copy in full: where the new block begins, and whether the old size fits behind its header |
| `TinyAlloc.ShrinkingRun` | src/compiler/frontend/cprimepp.c:425-494 | a run from a fresh allocator that gets there: 64 bytes, 8 bytes, and the 64 cut to 8 |
| `TinyAlloc.Arena.constructor` | src/compiler/frontend/cprimepp.c:327-341 | an empty arena |
| `TinyAlloc.Arena.PutHeader` | src/compiler/frontend/cprimepp.c:474-476 | a header write changes its own bytes and spares headers that it does not overlap |
| `TinyAlloc.Arena.CopyIn` | src/compiler/frontend/cprimepp.c:442-448 | a copy changes its own bytes and spares headers that it does not overlap |
| `TinyAlloc.Allocator.constructor` | src/compiler/frontend/cprimepp.c:327-341 | the first arena has the standard size |
| `TinyAlloc.Allocator.NewArena` | src/compiler/frontend/cprimepp.c:327-341 | a new arena goes to the front and inherits the standard size |
| `TinyAlloc.Allocator.FindRoom` | src/compiler/frontend/cprimepp.c:456-471 | the first arena with room, or a new one of standard or larger size in front when none has any |
| `TinyAlloc.Allocator.Bump` | src/compiler/frontend/cprimepp.c:474-478 | a header at the arena's top and the room behind it become a block apart from all others |
| `TinyAlloc.Allocator.Place` | src/compiler/frontend/cprimepp.c:456-494 | a block of the aligned size at the top of the first arena with room, or of a new one, apart from all live blocks |
| `TinyAlloc.Allocator.Alloc` | src/compiler/frontend/cprimepp.c:425-494 | a new block of the aligned size, apart from all live blocks, whose bytes are unchanged, exactly for the sizes whose 32-bit adjusted size does not wrap |
| `TinyAlloc.Allocator.CountOne` | src/compiler/frontend/cprimepp.c:472 | the arena counts a block about to be made |
| `TinyAlloc.Allocator.Store` | src/compiler/frontend/cprimepp.c:442 | writing into a block spares every other block and every header |
| `TinyAlloc.Allocator.Retire` | src/compiler/frontend/cprimepp.c:405 | the block leaves its arena's count |
| `TinyAlloc.Allocator.ResetOrRelease` | src/compiler/frontend/cprimepp.c:407-420 | an empty arena is released if oversized, otherwise reset and moved to the front; the other arenas keep their places and one standard arena always stays |
| `TinyAlloc.Allocator.LowerTop` | src/compiler/frontend/cprimepp.c:421-422 | a dead topmost block's room is available again |
| `TinyAlloc.Allocator.Free` | src/compiler/frontend/cprimepp.c:385-423 | the block is gone and all else live is kept; the last block of an arena recycles it, a topmost block gives its room back, any other leaves the top alone |
| `TinyAlloc.Allocator.GiveBack` | src/compiler/frontend/cprimepp.c:437-438 | the topmost block's room is handed back while its bytes stay |
| `TinyAlloc.Allocator.CopyUp` | src/compiler/frontend/cprimepp.c:446-448 | copying above an arena's top disturbs no live block |
| `TinyAlloc.Allocator.Spill` | src/compiler/frontend/cprimepp.c:442 | a copy to the block at its arena's top disturbs nothing else in use, even where it exceeds the block |
| `TinyAlloc.Allocator.MoveAway` | src/compiler/frontend/cprimepp.c:439-445 | reallocation into another arena keeps the old contents and every other block, if and only if the copy of the old size ends inside the buffer found |
| `TinyAlloc.Allocator.MoveWithin` | src/compiler/frontend/cprimepp.c:446-478 | reallocation in place or to the top of the same arena keeps the old contents and every other block |
| `TinyAlloc.Allocator.Realloc` | src/compiler/frontend/cprimepp.c:425-494 | a reallocated block has the new size and the old contents, and every other live block keeps its bytes, exactly when the adjusted size does not wrap and the copy of the old size ends inside a buffer, a condition the caller can compute and every growing call meets. A topmost block with room stays where it is, another one goes to the top of its arena if there is room, and else the block goes where the search for a new one leads; the top of its arena is right behind it |
| `MacroExpand.TakeArgs` | src/compiler/frontend/cprimepp.c:4819-4875 | collecting arguments, variable ones included, consumes tokens: the arguments and what follows are fewer tokens than there were |
| `MacroExpand.FreeShrinks` | src/compiler/frontend/cprimepp.c:4897-4898 | entering a macro not yet on the list leaves fewer definitions to enter |
| `MacroExpand.Subst` | src/compiler/frontend/cprimepp.c:4965-5032 | expansion terminates for every set of definitions, however recursive, by the measure (definitions not entered, tokens left), up to a call that reads past the end of its list; no object-like macro name is left unpainted in its result |
| `MacroExpand.SubstTok` | src/compiler/frontend/cprimepp.c:4773-4907 | expanding one macro never grows the stream behind it |
| `MacroExpand.MacroSubst` | src/compiler/frontend/cprimepp.c:4965-5032 | the loop over the stream with the stack of enclosing macros computes the expansion |
| `MacroExpand.MacroSubstTok` | src/compiler/frontend/cprimepp.c:4773-4907 | reading a call, filling the list and rescanning it computes the expansion of the call |
| `MacroExpand.MacroArgSubst` | src/compiler/frontend/cprimepp.c:4486-4625 | arguments are expanded where the list first uses them and the expansion kept, copied raw next to ## and turned to text after #; a comma before empty variable arguments goes away |
| `MacroExpand.SubstInPlace` | src/compiler/frontend/cprimepp.c:4965-5032 | expanding a part of a text is a sequence of leftmost hide-set replacements of that part |
| `MacroExpand.NormalFormUnique` | src/compiler/frontend/cprimepp.c:4986-5005 | hide-set replacement reaches at most one normal form |
| `MacroExpand.ExpansionIsHideSetNormalForm` | src/compiler/frontend/cprimepp.c:4965-5032 | for object-like macros, with ## or without, the expander computes the one normal form of hide-set replacement (section 6.10.3.4 of ISO/IEC 9899:2011) |
| `MacroExpand.NameIsPainted` | src/compiler/frontend/cprimepp.c:4897-4907 | while a macro is being expanded its own name is left painted only |
| `MacroExpand.UnchangedIffQuiet` | src/compiler/frontend/cprimepp.c:4965-5032 | for every text and every set of definitions, expansion leaves the text as it is if and only if no unpainted object-like name and no unpainted function-like name before a parenthesis is in it |
| `MacroExpand.SecondPassIff` | src/compiler/frontend/cprimepp.c:4965-5032 | for every set of definitions a second pass changes nothing if and only if the first left no unpainted function-like name before a parenthesis |
| `MacroExpand.ExpansionIsIdempotent` | src/compiler/frontend/cprimepp.c:4988-4997 | for object-like macros expanding the result again changes nothing |
| `MacroExpand.FunctionLikeNotIdempotent` | src/compiler/frontend/cprimepp.c:4800-4815 | with function-like macros it can: a concrete text whose expansion still holds a call |
| `MacroCalls.TakesGiven` | src/compiler/frontend/cprimepp.c:4819-4875 | the arguments taken are those between the commas of the call; a comma too many before the parenthesis, an empty list and omitted variable arguments included |
| `MacroCalls.TakenIsBalanced` | src/compiler/frontend/cprimepp.c:4843-4857 | what is taken as an argument is balanced, and the text is the argument, its comma or parenthesis, and the rest |
| `MacroCalls.FillsAsWritten` | src/compiler/frontend/cprimepp.c:4486-4625 | the list is filled with the contribution of each piece, in order |
| `MacroCalls.CallMeans` | src/compiler/frontend/cprimepp.c:4789-4907 | for every list, all balanced arguments and whatever follows, a call is replaced by its list with the arguments in their places (expanded, as written next to ##, as text after #, with the comma before variable arguments or without), pasted if it has ##, rescanned with its name guarded, and then the text behind the call |
| `MacroCalls.CallWritesItsList` | src/compiler/frontend/cprimepp.c:4789-4907 | where neither arguments nor filled list name a macro, a call is exactly its filled list |
| `MacroCalls.ObjectMeans` | src/compiler/frontend/cprimepp.c:4893-4900 | the name of an object-like macro is replaced by its list, rescanned with the name guarded |
| `MacroCalls.CallMiscounted` | src/compiler/frontend/cprimepp.c:4837-4875 | a call with too many or too few arguments is an error |
| `MacroCalls.CallUnclosed` | src/compiler/frontend/cprimepp.c:4843-4846 | a call that is never closed is an error at the end of the text |
| `MacroCalls.ListEndLeaves` | src/compiler/frontend/cprimepp.c:4730-4767 | at the end of a replacement list neither a name that may be called nor an open call is decided |
| `MacroCalls.TextEndKeeps` | src/compiler/frontend/cprimepp.c:4799-4814 | at the end of a text or an argument such a name stands for itself |
| `Conditionals.SkipBlock` | src/compiler/frontend/cprimepp.c:1234-1360 | the fast skipper passes over any well-nested stretch with its counter unchanged |
| `Conditionals.SkipToTail` | src/compiler/frontend/cprimepp.c:1234-1360 | started in a group it stops at the #elif, #else or #endif of that very group |
| `Conditionals.RunBranch` | src/compiler/frontend/cprimepp.c:2925-2973 | after a condition is judged the group is processed or skipped and the rest of the chain handled accordingly, as far as what is processed fits the stack |
| `Conditionals.RunLive` | src/compiler/frontend/cprimepp.c:2930-2973 | while no branch was taken, #elif is evaluated and #else entered (stack value 0, then 3) |
| `Conditionals.RunDead` | src/compiler/frontend/cprimepp.c:2930-2973 | after a taken branch nothing more is emitted or evaluated (stack value 1, then 2) |
| `Conditionals.FailBlock` | src/compiler/frontend/cprimepp.c:2924-2931 | a text whose processed groups nest deeper than the room left on the stack ends in the error |
| `Conditionals.FailBranch` | src/compiler/frontend/cprimepp.c:2924-2973 | so does a group whose branch that is processed does |
| `Conditionals.MachineRefinesMeaning` | src/compiler/frontend/cprimepp.c:2891-2990 | on every well-nested text the machine emits exactly the text of the recursive reading, evaluates the same conditions in the same order, and the stack returns to its height, if and only if the groups that are processed nest no deeper than the stack; otherwise it fails. What is skipped may nest to any depth |
| `Directives.IfdefPlays` | src/compiler/frontend/cprimepp.c:2897-2931 | inside any text an #ifdef group behaves as its first branch read alone if the macro is defined or built in, and as its #else branch otherwise; nothing is evaluated |
| `Directives.IfndefPlays` | src/compiler/frontend/cprimepp.c:2897-2931 | for #ifndef the other way round |
| `Directives.IfPlays` | src/compiler/frontend/cprimepp.c:2894-2931 | for #if by the value of the expression, which is evaluated once |
| `Directives.ElifdefPlays` | src/compiler/frontend/cprimepp.c:2892-2973 | the same for #elifdef while no branch of its group was taken |
| `Directives.ElifndefPlays` | src/compiler/frontend/cprimepp.c:2892-2973 | and for #elifndef |
| `Directives.ElifPlays` | src/compiler/frontend/cprimepp.c:2945-2973 | and for #elif, whose expression is evaluated once |
| `Directives.LinePlays` | src/compiler/frontend/cprimepp.c:2978-3060 | any other line emits its text and makes its definitions, a blank one does nothing |
| `Directives.ReadPlays` | src/compiler/frontend/cprimepp.c:3932-3963 | a file that is one such group is read as its branch is run alone, errors included |
| `Directives.IfdefFile` | src/compiler/frontend/cprimepp.c:2897-2973 | a whole file under #ifdef is read exactly when the macro is defined or built in, and its #else branch otherwise |
| `Directives.OutsideFails` | src/compiler/frontend/cprimepp.c:2933-2990 | #else, #elif and #endif outside every group are errors |
| `Directives.ElseTwiceFails` | src/compiler/frontend/cprimepp.c:2933-2973 | a second #else, or an #elif behind the #else, is an error whichever branch is taken |
| `Directives.UnclosedFails` | src/compiler/frontend/cprimepp.c:1234-1360 | a group that is never closed is an error, whether it is processed or skipped |
| `IncludeGuard.SkipLift` | src/compiler/frontend/cprimepp.c:1234-1360 | skipping from inside a group and from the enclosing level meet at the same directive |
| `IncludeGuard.KnownStep` | src/compiler/frontend/cprimepp.c:2904-2989 | every directive keeps what the guard fields claim about the lines read so far |
| `IncludeGuard.RunShowsGuard` | src/compiler/frontend/cprimepp.c:2979-2989 | a file that ends right behind the remembered #endif is one #ifndef group with nothing around it and no #else |
| `IncludeGuard.GuardedFileIsSkipped` | src/compiler/frontend/cprimepp.c:2904-2989 | such a file, read with its guard defined, emits nothing, changes no macro, evaluates no condition and records the same guard |
| `IncludeGuard.CachedSkipIsSound` | src/compiler/frontend/cprimepp.c:2066-2081 | a guard recorded in any macro state is good in every later state where it is defined: skipping the file equals reading it |
| `IncludeGuard.GuardedIsRecorded` | src/compiler/frontend/cprimepp.c:3953-3963 | a guarded file that reads without error is recorded, whether its guard was defined before, is defined while it is read, or never |
| `IncludeGuard.RecordedIffGuarded` | src/compiler/frontend/cprimepp.c:3953-3963 | for a file that reads without error in whatever macro state, being recorded depends on its shape alone |
| `IncludeGuard.ReadIsMeaning` | src/compiler/frontend/cprimepp.c:2851-3088 | reading a well-nested file with the watching fields gives the recursive meaning, or an error exactly when its processed groups nest deeper than the stack |
| `IncludeGuard.Preprocessor.constructor` | src/compiler/frontend/cprimepp.c:2851-2869 | a file at its beginning |
| `IncludeGuard.Preprocessor.PreprocessSkip` | src/compiler/frontend/cprimepp.c:1234-1360 | the counter loop stops where the skipping function says |
| `IncludeGuard.Preprocessor.Judge` | src/compiler/frontend/cprimepp.c:2891-2990 | the switch over conditional directives makes one step of the machine, its error cases included |
| `IncludeGuard.Preprocessor.Preprocess` | src/compiler/frontend/cprimepp.c:2867-2990 | a directive and all groups skipped after it amount to steps of the machine |
| `IncludeGuard.Preprocessor.ReadFile` | src/compiler/frontend/cprimepp.c:3932-3963 | reading to the end of the file gives the run of the machine, or its error |
| `LineProgram.UlebReads` | src/compiler/middleend/cprimedbg.c:827-837 | an unsigned LEB128 number reads back |
| `LineProgram.SlebReads` | src/compiler/middleend/cprimedbg.c:839-854 | a signed LEB128 number reads back |
| `LineProgram.DecodeAppend` | src/compiler/middleend/cprimedbg.c:1521-1583 | decoding is compositional: registers and rows of a longer program continue those of the shorter |
| `LineProgram.CodeDecodes` | src/compiler/middleend/cprimedbg.c:1542-1579 | the bytes of a list of operations decode to their effect and their rows |
| `LineProgram.NotMisledNearby` | src/compiler/middleend/cprimedbg.c:1538-1550 | for steps below 150 million bytes and 40 million lines the opcode computation is right |
| `LineProgram.MisledFarAway` | src/compiler/middleend/cprimedbg.c:1540 | a concrete step for which the 32-bit opcode computation wraps into a special opcode |
| `LineProgram.StepIsRight` | src/compiler/middleend/cprimedbg.c:1538-1579 | the chosen operations move address and line by exactly the step if and only if the 32-bit opcode did not wrap into the special range; a changed line ends in one row for the new position |
| `LineProgram.RowsAdded` | src/compiler/middleend/cprimedbg.c:1548-1579 | which rows a step adds, from its bytes and lines alone |
| `LineProgram.OneByteSteps` | src/compiler/middleend/cprimedbg.c:1538-1579 | a step is one byte, and which, exactly where one special opcode does the whole of it |
| `LineProgram.Reach` | src/compiler/middleend/cprimedbg.c:1548-1558 | a special opcode does the whole step exactly for -5 to 8 lines and 1 to 16 bytes, or 17 bytes and fewer lines; it moves the address alone exactly for 1 to 16 bytes |
| `LineProgram.LineWriter.constructor` | src/compiler/middleend/cprimedbg.c:1521-1540 | an empty program, registers at their initial values |
| `LineProgram.LineWriter.UlebOp` | src/compiler/middleend/cprimedbg.c:827-837 | the loop appends the LEB128 form |
| `LineProgram.LineWriter.SlebOp` | src/compiler/middleend/cprimedbg.c:839-854 | the loop appends the signed LEB128 form |
| `LineProgram.LineWriter.WriteStep` | src/compiler/middleend/cprimedbg.c:1548-1579 | the bytes appended are those of the chosen operations |
| `LineProgram.LineWriter.WritePc` | src/compiler/middleend/cprimedbg.c:1554-1564 | the address part of a split step |
| `LineProgram.LineWriter.WriteLine` | src/compiler/middleend/cprimedbg.c:1565-1578 | the line part of a split step |
| `LineProgram.LineWriter.WriteFile` | src/compiler/middleend/cprimedbg.c:1542-1547 | a file operation exactly when the file changed |
| `LineProgram.LineWriter.DebugLine` | src/compiler/middleend/cprimedbg.c:1521-1583 | after every recorded call a reader's address, file and line are the writer's last pc, file and line, if and only if the step did not mislead; earlier rows are kept, and the rows added are one on the old line where a special opcode moves the address and the line is out of its reach, and one for the new position where the line changed or a special opcode moved the address |
| `TokenStream.TextReadsBack` | src/compiler/frontend/cprimepp.c:1648-1658 | size, bytes and padding of a string are read back, and reading ends where the next token starts |
| `TokenStream.ValueReadsBack` | src/compiler/frontend/cprimepp.c:1623-1688 | every stored value shape reads back with the same meaning, in canonical 64-bit form, whatever the union held before |
| `TokenStream.TokenReadsBack` | src/compiler/frontend/cprimepp.c:1617-1690 | one token comes back exactly when its kind is not TOK_CIMAGF, whose word is read but never written |
| `TokenStream.KindReadsBack` | src/compiler/frontend/cprimepp.c:1506-1690 | kind by kind: both words of the 64-bit kinds, all words of a long double, the signed or unsigned 64-bit value of the 32-bit kinds, the word of a float, the text of the string kinds come back; a kind without a value leaves the union alone |
| `TokenStream.NotValued` | src/compiler/frontend/cprimepp.c:1584-1590 | a kind without a value is one word |
| `TokenStream.KindWords` | src/compiler/frontend/cprimepp.c:1506-1590 | how many words each kind takes |
| `TokenStream.TargetsInUse` | src/compiler/frontend/cprimepp.c:1566-1583 | long doubles of two, three and four words are covered |
| `TokenStream.CanonicalField` | src/compiler/frontend/cprimepp.c:1628-1643 | a one-word number is canonical if and only if the whole 64-bit field has its value |
| `TokenStream.StreamReadsBack` | src/compiler/frontend/cprimepp.c:1617-1690 | a whole stream decodes to the kinds and values that were saved if and only if it holds no TOK_CIMAGF |
| `TokenStream.EqualWordsEqualTokens` | src/compiler/frontend/cprimepp.c:1548-1553 | two streams have equal words if and only if they hold equal kinds and values, so hashing words hashes tokens |
| `TokenStream.TokenString.constructor` | src/compiler/frontend/cprimepp.c:1408-1414 | an empty stream, nothing allocated |
| `TokenStream.TokenString.Realloc` | src/compiler/frontend/cprimepp.c:1434-1459 | the buffer grows to the requested length and keeps what is stored |
| `TokenStream.TokenString.StoreText` | src/compiler/frontend/cprimepp.c:1542-1554 | size, bytes and zero padding, independent of the old memory |
| `TokenStream.TokenString.Add2` | src/compiler/frontend/cprimepp.c:1506-1590 | the stream grows by the encoded token; all writes stay inside the allocated length |
| `TokenStream.TokenString.AddTok` | src/compiler/frontend/cprimepp.c:1593-1605 | with line tokens interleaved on change, every token reads back on the line it was added on |
| `TokenStream.TokenString.TokGet` | src/compiler/frontend/cprimepp.c:1617-1701 | the reader takes one token as the decoding function says |
| `TokenStream.TokenString.ReadAll` | src/compiler/frontend/cprimepp.c:1617-1690 | reading to the end gives back every kind and value |
| `Numbers.OverflowTest` | src/compiler/frontend/cprimepp.c:3763-3771 | below 2^60, or when the wrapped product divides back, nothing was lost: exactly then the true value fits in 64 bits |
| `Numbers.ValueByPlace` | src/compiler/frontend/cprimepp.c:3758 | the written number counts each digit as many times the power of the radix of its distance from the end |
| `Numbers.ParseInteger` | src/compiler/frontend/cprimepp.c:3737-3772 | a decimal constant with a leading zero is read with radix 8; the overflow flag is set if and only if the written value is at least 2^64, the value is kept modulo 2^64, and digits outside the radix are refused |
| `Numbers.Shift` | src/compiler/frontend/cprimepp.c:3415-3428 | one more digit is taken exactly, or nothing changes and the number is too big to shift |
| `Numbers.TopWord` | src/compiler/frontend/cprimepp.c:3419-3420 | if the top word would lose bits the whole number would overflow its words |
| `Numbers.Take` | src/compiler/frontend/cprimepp.c:3584 | the words hold exactly the first digits; after one dropped digit all later ones are dropped |
| `Numbers.Significand` | src/compiler/frontend/cprimepp.c:3565-3605 | the significand loops, in radix 2^shift, keep a prefix of the digits and account for every dropped and fractional digit in the scale |
| `Numbers.PrefixIsTruncation` | src/compiler/frontend/cprimepp.c:3565-3605 | a kept prefix scaled back is at most the written number and less than one unit below it |
| `Numbers.SignificandIsTruncation` | src/compiler/frontend/cprimepp.c:3565-3605 | the result is exact if no digit was dropped or the number fits; otherwise truncated by less than one unit of a number that nearly fills its words |
| `RawString.NoOverlap` | src/compiler/frontend/cprimepp.c:1108-1111 | without a closing parenthesis in the delimiter restarting at a parenthesis loses nothing |
| `RawString.OpeningExactly` | src/compiler/frontend/cprimepp.c:1085-1096 | exactly the delimiters of at most sixteen visible characters without parentheses and backslash are accepted in front of a parenthesis |
| `RawString.NormalKeeps` | src/compiler/frontend/cprimepp.c:1101-1105 | text without carriage returns stays |
| `RawString.NormalReturn` | src/compiler/frontend/cprimepp.c:1101-1105 | a carriage return, with the line feed behind it if there is one, becomes one line feed |
| `RawString.LineFeedsCount` | src/compiler/frontend/cprimepp.c:1106 | the lines counted are the line feeds of the text |
| `RawString.MatchIsLongest` | src/compiler/frontend/cprimepp.c:1108-1111 | the one-line fallback keeps the longest match where restarting loses nothing |
| `RawString.MatcherIsRight` | src/compiler/frontend/cprimepp.c:1098-1113 | for such a delimiter the matcher ends in exactly the texts that hold the closing delimiter |
| `RawString.FallbackIsRightIff` | src/compiler/frontend/cprimepp.c:1108-1111 | the fallback is right for every text if and only if each shorter match alive within the closing delimiter waits for the same character as the longer one |
| `RawString.FallbackNeedsTheExclusion` | src/compiler/frontend/cprimepp.c:1108-1111 | with a parenthesis in the delimiter it would miss the end: a concrete text |
| `RawString.ParsePpRawString` | src/compiler/frontend/cprimepp.c:1085-1114 | the scanner accepts exactly the valid delimiters and stops at the first closing delimiter of the text, line ends normalised and counted, or reports that there is none |
| `RawString.ScanBody` | src/compiler/frontend/cprimepp.c:1098-1113 | the scan after the opening parenthesis |
| `RawString.ScannedIsLiteral` | src/compiler/frontend/cprimepp.c:1085-1114 | a scanned token is delimiter, content and closing delimiter |
| `RawString.ScannedIsRaw` | src/compiler/frontend/cprimepp.c:4229-4233 | with any encoding prefix it is a raw literal of that delimiter and content |
| `RawString.RawForm` | src/compiler/frontend/cprimepp.c:3312-3320 | every prefix, delimiter without an opening parenthesis and content makes a raw literal |
| `RawString.RawBody` | src/compiler/frontend/cprimepp.c:3312-3339 | the length arithmetic of the conversion recovers exactly the content |
| `RawString.Double` | src/compiler/frontend/cprimepp.c:3342-3350 | every backslash is doubled |
| `RawString.DecodeEncoded` | src/compiler/frontend/cprimepp.c:3208-3267 | the UTF-8 decoder returns every encoded code point and its length |
| `RawString.IllFormedPart` | src/compiler/frontend/cprimepp.c:3208-3274 | text that begins no encoded code point gives U+FFFD and takes the longest part that could have begun one, or one byte (section 3.9 of the Unicode Standard, version 10) |
| `RawString.UnitsOfIllFormed` | src/compiler/frontend/cprimepp.c:3208-3274 | in a wide literal such a part is written as U+FFFD and reading goes on behind it |
| `RawString.UnitsOfDoubled` | src/compiler/frontend/cprimepp.c:3091-3310 | for NUL-free well-formed UTF-8, doubling backslashes and evaluating escapes gives the text back, in units of 1, 2 or 4 bytes |
| `RawString.ValueMeans` | src/compiler/frontend/cprimepp.c:3275-3310 | units of one byte are the bytes of the text, units of four its code points, and units of two decode as UTF-16 to its code points |
| `RawString.DecodeSequence` | src/compiler/frontend/cprimepp.c:3208-3274 | the loop over the continuation bytes returns an encoded code point and its length, whatever follows it |
| `RawString.ParseEscapeString` | src/compiler/frontend/cprimepp.c:3091-3310 | the loop over the text appends the units of every character and the terminator |
| `RawString.ParseRawString` | src/compiler/frontend/cprimepp.c:3312-3354 | the literal's value is the scanned text itself for every delimiter (section 5.13.5 of ISO/IEC 14882:2017): its bytes without a prefix or with u8, its code points with U or a four-byte L, UTF-16 with u or a two-byte L |
| `Archives.IndexNames` | src/compiler/middleend/cprimeelf.c:4285-4316 | a new archive has nothing loaded and a complete name index, of a power of two of buckets from 16 to 65536, no more than twice the names beyond 16 |
| `Archives.FindProvider` | src/compiler/middleend/cprimeelf.c:4243-4245 | the chain walk tells whether an unloaded entry has the name |
| `Archives.MarkMember` | src/compiler/middleend/cprimeelf.c:4363-4368 | all entries of one member are marked loaded, and no others |
| `Archives.ExhaustedIsFixpoint` | src/compiler/middleend/cprimeelf.c:4346-4350 | when no archive has an eligible entry left, no unloaded entry of any archive matches a wanted symbol: deferring to earlier archives loses nothing |
| `Archives.EligibleNeedsRescan` | src/compiler/middleend/cprimeelf.c:4399-4423 | an eligible entry is always seen by the quick test |
| `Archives.NoRescanNoExtraction` | src/compiler/middleend/cprimeelf.c:4399-4423 | if the quick test says no, a rescan would extract nothing |
| `Archives.HistoryGrows` | src/compiler/middleend/cprimeelf.c:4335-4384 | every extraction was of a symbol wanted at that moment, from the first archive that still provided it then |
| `Archives.ExtractedOnce` | src/compiler/middleend/cprimeelf.c:4360-4366 | in such a history no member is extracted twice |
| `Archives.ThreadedGrows` | src/compiler/middleend/cprimeelf.c:4362-4384 | the extractions form one run: each loads the member of its entry, from its archive, into the world the one before it left |
| `Archives.WantedIsUnsettled` | src/compiler/middleend/cprimeelf.c:4336-4360 | a name pulls a member if and only if it is referenced, undefined, may search as a weak external, and is answered by no DLL symbol, directly or behind "__imp_" or "_imp__" |
| `Archives.ExhaustedMeans` | src/compiler/middleend/cprimeelf.c:4326-4388 | an exhausted archive holds unloaded only what is of no use or what an archive before it offers too |
| `Archives.FixpointMeans` | src/compiler/middleend/cprimeelf.c:4429-4444 | at the fixpoint whatever is unloaded is of no use |
| `Archives.ExtractedOnDemand` | src/compiler/middleend/cprimeelf.c:4335-4384 | every extraction was of an unloaded entry whose name was unsettled then and which no archive before offered |
| `Archives.Linker.constructor` | src/compiler/middleend/cprimeelf.c:4251-4262 | no archives, nothing extracted |
| `Archives.Linker.AddArchive` | src/compiler/middleend/cprimeelf.c:4280-4318 | an archive seen first is kept with nothing loaded from it |
| `Archives.Linker.TryEntry` | src/compiler/middleend/cprimeelf.c:4335-4384 | an entry is extracted if and only if it is eligible now; its whole member is then marked |
| `Archives.Linker.EarlierProvider` | src/compiler/middleend/cprimeelf.c:4233-4248 | whether an archive before this one still provides the name |
| `Archives.Linker.Pass` | src/compiler/middleend/cprimeelf.c:4328-4385 | a pass that binds nothing changed nothing and left nothing eligible |
| `Archives.Linker.LoadAlacarte` | src/compiler/middleend/cprimeelf.c:4326-4388 | the passes end, and on success every entry left unloaded has a name that nothing refers to, or that is defined, or that may not search, or that a DLL answers, or that an archive before offers |
| `Archives.Linker.ArchiveNeedsRescan` | src/compiler/middleend/cprimeelf.c:4399-4423 | the quick test says yes if and only if some referenced, undefined symbol that may search and that no DLL answers has an unloaded entry in the archive |
| `Archives.Linker.RescanEach` | src/compiler/middleend/cprimeelf.c:4434-4439 | archives in link order, each scanned only when the quick test says so |
| `Archives.Linker.RescanArchives` | src/compiler/middleend/cprimeelf.c:4429-4444 | the rescan ends, and on success every entry left unloaded in any archive has a name that nothing refers to, or that is defined, or that may not search, or that a DLL answers |
| `ProjectOrder.Named` | src/tools/build_project.c:632-637 | the first project of that name, or none |
| `ProjectOrder.RankFalls` | src/tools/build_project.c:638-651 | along links the leaving order of finished projects only falls |
| `ProjectOrder.RankedIsAcyclic` | src/tools/build_project.c:638-651 | no path through finished projects is a cycle |
| `ProjectOrder.BackEdge` | src/tools/build_project.c:640 | meeting a project that is being visited exhibits a real cycle |
| `ProjectOrder.FinishedIsBuildable` | src/tools/build_project.c:638-651 | neither a cycle nor a missing reference is reachable from a finished project |
| `ProjectOrder.LastIsFree` | src/tools/build_project.c:655-677 | the remaining project that was left last is never blocked |
| `ProjectOrder.ListOne` | src/tools/build_project.c:660-674 | listing an unblocked project keeps the list in order and without repetition |
| `ProjectOrder.Driver.constructor` | src/tools/build_project.c:638-651 | nothing selected yet |
| `ProjectOrder.Driver.SelectProject` | src/tools/build_project.c:638-651 | success finishes everything reachable and selects nothing else, and then no cycle and no missing reference is reachable; failure means that one is |
| `ProjectOrder.Driver.SelectRefs` | src/tools/build_project.c:644-649 | every link reference is followed, no reference is missing, and what is asked for as objects is marked |
| `ProjectOrder.Driver.IsBlocked` | src/tools/build_project.c:665-668 | whether a selected project not yet listed links this one |
| `ProjectOrder.Driver.Sweep` | src/tools/build_project.c:655-677 | each sweep lists at least one project while any is left |
| `ProjectOrder.Driver.OrderProjects` | src/tools/build_project.c:652-679 | ordering never fails after a completed selection; every selected project is listed once, before every project it links |
| `ProjectOrder.Driver.Closed` | src/tools/build_project.c:638-651 | what the application reaches is selected, and that part has no cycle |
| `ProjectOrder.Driver.SelectAndOrder` | src/tools/build_project.c:638-679 | from the application: it succeeds if and only if neither a cycle nor a missing reference is reachable; the list is exactly the reachable projects in order, and objects are asked of exactly the projects some of them feed from |
| `Quoting.SplitRun` | src/tools/build_project.c:292-299 | a run of backslashes and the character after it are read back |
| `Quoting.SplitEscaped` | src/tools/build_project.c:284-301 | reading escaped text adds exactly the original text to the argument, whether or not a quote closes it |
| `Quoting.QuotedReadsBack` | src/tools/build_project.c:281-302 | an argument quoted by the driver is read back whatever follows |
| `Quoting.JoinedReadsBack` | src/tools/build_project.c:303-311 | for any quoter and reader that agree on one argument, a joined list reads back as the same list |
| `Quoting.ListSplitEscaped` | src/tools/build_project.c:286-291 | inside quotes the text escaped for a response file adds exactly the original text |
| `Quoting.ListedReadsBack` | src/compiler/middleend/libcprime.c:897-937 | an argument quoted for a response file is read back by the compiler, whatever follows |
| `Quoting.ListSeparatesAt` | src/compiler/middleend/libcprime.c:897-937 | in a response file every blank and control character separates words |
| `Quoting.ListQuotes` | src/compiler/middleend/libcprime.c:907-931 | there quotes keep blanks inside a word, and a backslash is one unless a quote or another one follows |
| `Quoting.DynarraySplit` | src/compiler/middleend/libcprime.c:897-937 | the loops compute the splitting function, for a response file and for a separator character |
| `Quoting.SeparatedReadsBack` | src/compiler/middleend/libcprime.c:897-937 | a list put together with a separator is read back if and only if no argument holds the separator or begins with a blank, and the last is not empty |
| `Quoting.FieldsReadBack` | src/compiler/middleend/libcprime.c:897-937 | of such a list only an empty last argument is lost |
| `Quoting.OnlyFields` | src/compiler/middleend/libcprime.c:903-932 | no argument read ever holds the separator or begins with a blank |
| `Quoting.TakeArgument` | src/compiler/middleend/libcprime.c:907-935 | one argument is taken, its escapes and quotes resolved |
| `Quoting.Buf.ArgQuote` | src/tools/build_project.c:281-302 | the quoted argument is appended behind a separating blank; it fails exactly for a line break on its way to a response file |
| `Quoting.Buf.ListBody` | src/tools/build_project.c:286-291 | the loop for response files writes the escaped text, or stops at a line break |
| `Quoting.Buf.QuoteBody` | src/tools/build_project.c:292-299 | the loop for command lines writes the escaped text |
| `Quoting.Buf.QuoteRun` | src/tools/build_project.c:292-299 | one round of the loop writes the escaped form of a run and the character behind it |
| `Quoting.ProgramReadsBack` | src/tools/build_project.c:281-302 | by the rules for the first word of a command line a quoted program name is read back if and only if it holds no quote and does not end in a backslash |
| `Quoting.StartedReadsBack` | src/tools/build_project.c:303-311 | a line of program and arguments is read back if and only if the program name is such a one |
| `Quoting.CommandLine` | src/tools/build_project.c:303-311 | the command line, with or without a program in front, reads back as exactly what was given, by the rules of the C runtime (where the program name allows it) or by those of the compiler for response files; it fails exactly when a response file would get an argument with a line break |
| `Quoting.EscapedUndone` | src/compiler/middleend/cprimetools.c:542-555 | undoing the escapes of the trailing run gives the form without a closing quote |
| `Quoting.EscapedSnoc` | src/compiler/middleend/cprimetools.c:542-550 | what one more character does to the escaped text |
| `Quoting.QuoteOne` | src/compiler/middleend/cprimetools.c:542-550 | the loop body with its undo keeps the buffer equal to the escaped prefix, inside twice its length |
| `Quoting.QuoteAll` | src/compiler/middleend/cprimetools.c:540-550 | the loop leaves the text as a closing quote would need it, the length of its trailing run, and whether quotes are needed |
| `Quoting.QuoteWin32` | src/compiler/middleend/cprimetools.c:537-561 | the buffer of 2 * length + 3 characters suffices, is ended by a NUL, and splits into exactly the argument |
| `Quoting.SpawnedReadsBack` | src/compiler/middleend/cprimetools.c:537-561 | the quoted argument is read back whatever follows |
| `Quoting.SpawnedFirst` | src/compiler/middleend/cprimetools.c:541-561 | a spawned argument stands in quotes if and only if it is empty or holds a blank |
| `Quoting.SpawnedProgramReadsBack` | src/compiler/middleend/cprimetools.c:537-561 | by the rules for the first word of a command line the quoted program name is read back if and only if it holds no quote and, where it is put in quotes, does not end in a backslash |
| `Quoting.SpawnedLineReadsBack` | src/compiler/middleend/cprimetools.c:563-577 | the whole vector, each part quoted and joined by blanks, is read back by the started program if and only if its first part is such a name; the rest always splits into the same list |
| `DepFile.DistinctMeaning` | src/compiler/middleend/cprimetools.c:654-663 | every dependency is kept once, ordered by first mention |
| `DepFile.EscapesExactly` | src/compiler/middleend/cprimetools.c:612-626 | which characters are escaped, by their codes |
| `DepFile.SeparatesAt` | src/tools/build_project.c:340-346 | the reader separates at exactly the six white-space codes: two bare names with one of them between are two tokens |
| `DepFile.EscapeTargetDep` | src/compiler/middleend/cprimetools.c:612-626 | the escaped name, which fits in 2 * length + 1 characters with the NUL that ends it |
| `DepFile.Targets` | src/compiler/middleend/cprimetools.c:654-663 | the loop keeps the first of equal dependencies |
| `DepFile.GenMakedeps` | src/compiler/middleend/cprimetools.c:652-690 | the text of the file: target, colon, one continued line a dependency, then the phony rules |
| `DepFile.GenPhony` | src/compiler/middleend/cprimetools.c:673-680 | the loop writes a phony rule for every name but the first |
| `DepFile.Dependencies` | src/tools/build_project.c:329-361 | the reader finds the separator or fails, and adds each token after it, made absolute, unless one like it is there |
| `DepFile.CollectMeaning` | src/tools/build_project.c:356 | no two names of the list are alike, each name read has one like it there, and nothing else was added |
| `DepFile.CollectDifferent` | src/tools/build_project.c:356 | names all different are all added, in order |
| `DepFile.ReadToken` | src/tools/build_project.c:345-355 | one token: continuation, escapes and doubled dollars |
| `DepFile.SeparatorIsReal` | src/tools/build_project.c:334-338 | the first colon followed by whitespace is the one after the target if and only if the target itself has no colon at a line's end |
| `DepFile.TokenOfEscaped` | src/tools/build_project.c:345-355 | an escaped name adds exactly its own characters to the token |
| `DepFile.TokensOfBackslash` | src/tools/build_project.c:346-351 | a name that ends in a backslash never comes back as itself |
| `DepFile.TokensAreLines` | src/tools/build_project.c:345-355 | no token is empty or holds a line break |
| `DepFile.TokensOfBody` | src/tools/build_project.c:339-358 | whatever follows the body, its names are read first and in order if and only if every name is non-empty, on one line and not ended by a backslash |
| `DepFile.TokensOfRules` | src/compiler/middleend/cprimetools.c:673-680 | to the reader a phony rule is one more name, its colon included |
| `DepFile.RoundTrip` | src/tools/build_project.c:329-361 | what one program writes the other reads: the duplicate-free list in order, and with phony rules all names but the first once more with a colon, exactly when every name is plain; for both line-end conventions |
| `DepFile.DependenciesReadBack` | src/tools/build_project.c:329-361 | across both programs, with phony rules and without: plain names that stay different when made absolute come back as the list written, made absolute |

## Left out

- TinyAlloc.Allocator.Realloc: stops with failure where the original would write past a buffer, and like Alloc for the sizes whose adjusted size wraps.
- TinyAlloc.Allocator.Alloc: stops with failure for a size above 2^32 - 24, where the adjusted size wraps (TinyAlloc.AdjSizeCovers) and the original hands out a block too small.
- GnuHash.DynamicTable.UpdateGnuHash: stops where the original reports a wrong section size and goes on into memory it did not reserve. The old-style index rebuilt at its end is SymbolTables.SymbolTable.RebuildHash.
- ElfSymbols.ResolutionByRank: the special case of one visibility and ordinary sections; ElfSymbols.ResolutionExactly is the general statement.
- SymbolTables.SymbolTable.Find: without the fallback to the definition files of PE targets.
- SymbolTables.SymbolTable.SortSyms: like the original it leaves the hash index as it was, so the index is not claimed valid afterwards.
- MacroExpand.Subst: a call that reads its arguments past the end of the replacement list it begins in ends in the outcome Leaves, and nothing is claimed after it, termination included.
- MacroExpand.UnchangedIffQuiet: a text with such a call counts as changed; MacroExpand.SecondPassIff speaks of first passes without one.
- MacroExpand.ExpansionIsHideSetNormalForm: object-like macros; the hide-set reading of function-like ones is not modelled.
- MacroExpand.MacroSubstTok: without `__COUNTER__`; `__LINE__`, `__FILE__`, `__DATE__` and `__TIME__` are object-like macros of one literal. White space and `defined` produced inside `#if` are left out as well.
- Conditionals.MachineRefinesMeaning: IFDEF_STACK_SIZE is a parameter; lines are given as directives and text, so the skipper's handling of comments, strings and splices is not modelled.
- IncludeGuard.CachedSkipIsSound: `#pragma once`, the other field of the cache entry, is not modelled.
- TokenStream.TokenString.Realloc: the doubling of the length is in unbounded integers; the separators of tok_str_add2_spc are left out.
- Numbers.ParseInteger: the suffixes and the type chosen from them are left out, as are decimal floats, exponents and the conversion to floating point.
- Numbers.Significand: `v << shift` with the incoming bits is written as arithmetic on 32-bit values.
- RawString.ParseRawString: ordinary string and character literals, and prefixes other than those of raw literals.
- RawString.ParsePpRawString: reads a plain character sequence; buffer refills are left out.
- LineProgram.LineWriter.DebugLine: for a minimum instruction length of 1, without the header, DW_LNE_set_address and DW_LNE_end_sequence; positions and lines are 31-bit.
- Archives.Linker.RescanArchives: without the DEFAULTLIB and alternate-name steps, which add work between passes; the archive's own format and invalid archives are not modelled.
- Archives.Linker.TryEntry: the search for weak externals is a function of the tables and changes nothing.
- ProjectOrder.Driver.SelectProject: project names are distinct and already case-folded.
- Quoting.DynarraySplit: batch files, one such list a line, are split into lines before.
- DepFile.GenMakedeps: the choice of the file name.
- DepFile.Dependencies: making a name absolute and comparing two names are parameters.
- Parser, code generator, relocation, PE output, processes, files, registry, timers: not part of this model.
