# PolandOS in Dafny

A verified model of the hard parts of PolandOS, a 64-bit kernel with its own scripting
language, written in C.

- **Memory** (`Pmm`, `PageTables`, `Paths`, `Vmm`, `Heap*`; with `Arith`, `Entries`, `Words`).  The
  physical frame allocator is a bitmap with a search hint, kept in step with the set of free
  frames.  Page tables are 64-bit words in a shared memory; in every reachable state they are a
  tree that no two parents share, and they refine a flat map from virtual pages to frames; how
  many frames a mapping takes for missing tables, and so when it panics, is stated exactly.  The
  rights of a page are taken over the whole walk, and every mapping is proved to grant exactly
  what it should.  A ghost TLB may cache any present translation at any time, and `invlpg` keeps it current.  The
  heap is a doubly linked block list inside a byte array; it always tiles the heap, and its
  operations are proved against functions on the list of blocks.
- **PolskiScript** (`Lexer`, `Syntax`, `Parser`, `Grammar`, `Acceptance`, `Completeness`, `Ast`,
  `Relexing`, `RoundTrip`, `Interp`, `Interpreter`, `BigStep`, `Execution`).  The lexer and parser are classes proved against
  functions on strings and token sequences; the parser accepts exactly the token sequences of a
  grammar; parsing undoes precedence-aware printing through
  the lexer.  The evaluator with its break, continue and return flags agrees, in both
  directions, with an inductively defined big-step semantics with completions.
- **Protocols and arithmetic** (`Nvme`, `Ring`, `Tcp`, `TcpStack`, `Checksum`, `Crc`, `Format`,
  `Printf`, `IpText`).  NVMe queue pairs against a controller that steps between polls; the
  single-producer single-consumer rings under every interleaving of their loads and stores; TCP
  sockets as a step machine over all runs, and what a reader gets of a peer's stream; the
  Internet checksum; CRC-32; the truncating formatter.

`Common` and `Numerals` hold what several of these use.
`dafny verify dfyconfig.toml` checks everything.  Functions with long bodies are hidden with
`hide` statements where a proof does not need them.

## Model

| member | source | states |
|---|---|---|
| Pmm.Pmm.constructor | kernel/arch/x86_64/mm/pmm.c:15-20 | no bitmap and zero counters before initialisation |
| Pmm.Pmm.Init | kernel/arch/x86_64/mm/pmm.c:36-107 | panics exactly when no usable entry is long enough for the bitmap; otherwise a frame is free exactly when it is in a usable entry and not one of the bitmap's own pages, the bitmap lies in the first entry that is long enough, and its pages are below the number of frames; the hint and byte-counter invariants hold |
| Pmm.Pmm.FindHighest | kernel/arch/x86_64/mm/pmm.c:43-54 | the highest end of the usable entries, and of all entries, in 64-bit arithmetic |
| Pmm.HighestBounds | kernel/arch/x86_64/mm/pmm.c:43-54 | no entry of the kind reaches beyond the highest end |
| Pmm.HighestReached | kernel/arch/x86_64/mm/pmm.c:43-54 | the highest end is the end of some entry of the kind, or 0 |
| Pmm.SizeLeast | kernel/arch/x86_64/mm/pmm.c:54-57 | any number of whole pages has a bit for each frame exactly when the bitmap is not larger |
| Pmm.Pmm.FindRegion | kernel/arch/x86_64/mm/pmm.c:60-67 | the first usable entry of at least the bitmap's size, if there is one |
| Pmm.Pmm.ClearUsable | kernel/arch/x86_64/mm/pmm.c:77-88 | in an all-used bitmap, exactly the frames of the usable entries become free, and total_mem is the sum of their lengths modulo 2^64 |
| Pmm.TotalAppend | kernel/arch/x86_64/mm/pmm.c:77-88 | the total counts each usable entry once, whatever the order of the map |
| Pmm.Pmm.MarkBitmap | kernel/arch/x86_64/mm/pmm.c:91-99 | exactly the bitmap's pages leave the set of free frames |
| Pmm.Pmm.CountFree | kernel/arch/x86_64/mm/pmm.c:103-106 | the loop counts the free set |
| Pmm.Pmm.Populate | kernel/arch/x86_64/mm/pmm.c:73-107 | the free set and the used-bytes counter after the bitmap is filled in |
| Pmm.Pmm.BitmapSet | kernel/arch/x86_64/mm/pmm.c:23-25 | setting a bit removes one frame from the free set and touches no other frame |
| Pmm.Pmm.BitmapClear | kernel/arch/x86_64/mm/pmm.c:27-29 | clearing a bit adds one frame to the free set and touches no other frame |
| Pmm.Pmm.Alloc | kernel/arch/x86_64/mm/pmm.c:116-140 | in every state reachable by these calls, it takes the lowest free frame and returns its address (0 exactly when none is free or frame 0 is), zeroes that page and nothing else, and keeps: all frames below the hint used, used_mem = total_mem - 4096 x free frames; the search from the start of the bitmap never finds anything |
| Pmm.Pmm.Free | kernel/arch/x86_64/mm/pmm.c:143-151 | the frame becomes free; a free frame or an address beyond the bitmap changes nothing; the hint and counter invariants are kept |
| Pmm.Pmm.AllocPages | kernel/arch/x86_64/mm/pmm.c:154-172 | takes the lowest run of count free frames and returns its address (0 when there is none, or when it starts at frame 0); exactly these frames are taken and zeroed |
| Pmm.Pmm.RunIsFree | kernel/arch/x86_64/mm/pmm.c:157-160 | the inner loop decides whether a run of frames is free |
| Pmm.Pmm.FindRun | kernel/arch/x86_64/mm/pmm.c:156-170 | the lowest run of free frames, if any |
| Pmm.Pmm.FreeBytes | kernel/arch/x86_64/mm/pmm.c:177 | the bytes of the free frames, or 0 exactly when these are more than were counted |
| Pmm.WholeFrames | kernel/arch/x86_64/mm/pmm.c:77-88 | the frames freed for a usable entry all lie inside it exactly when it holds no whole page or starts on a page boundary |
| Pmm.NeverTwice | kernel/arch/x86_64/mm/pmm.c:116-172 | over every run: between two calls that hand out the same frame, that frame was freed |
| Pmm.HandsOutResult | kernel/arch/x86_64/mm/pmm.c:116-172 | over every run: the frames that leave the free set in a call are exactly those it returns |
| Pmm.BitmapKept | kernel/arch/x86_64/mm/pmm.c:91-172 | over every run that gives no frame of the bitmap back, the allocator never hands out such a frame nor writes to its page |
| Pmm.BitmapPages | kernel/arch/x86_64/mm/pmm.c:90-99 | all bytes of the bitmap lie in the frames marked for it exactly when it is empty or starts on a page boundary |
| Pmm.UnalignedBitmap | kernel/arch/x86_64/mm/pmm.c:36-107 | a memory map whose entry does not start on a page boundary, with bitmap bytes in a free frame |
| PageTables.TreeLink | kernel/arch/x86_64/mm/vmm.c:25-34 | linking a blank page into a free entry keeps the tables a tree, in which no table is shared |
| PageTables.NoSharing | kernel/arch/x86_64/mm/vmm.c:25-34 | in a tree two entries that link to the same table are the same entry |
| PageTables.WalkLink | kernel/arch/x86_64/mm/vmm.c:25-34 | linking a blank page changes no translation |
| PageTables.TreeLeaf | kernel/arch/x86_64/mm/vmm.c:41 | writing a leaf where there was no link keeps the tree |
| PageTables.ReachUnique | kernel/arch/x86_64/mm/vmm.c:10-13 | in a tree, two addresses that use the same table entry agree in all indices from that level up |
| PageTables.FlatPte | kernel/arch/x86_64/mm/vmm.c:41-60 | writing a level-1 entry updates, or removes, exactly one page of the flat map from virtual pages to frames |
| PageTables.WalkPde | kernel/arch/x86_64/mm/vmm.c:125 | a 2 MiB entry gives exactly the addresses of its region the translation it says |
| PageTables.UnmappedSmall | kernel/arch/x86_64/mm/vmm.c:49-57 | a path that ends without a translation has no large page on it |
| PageTables.AccessExact | kernel/arch/x86_64/mm/vmm.c:10-43 | the rights of an address, taken entry by entry over its walk (write, user: allowed by every entry; no-execute, global: as the hardware reads them), are those of its last entry, without user mode |
| Paths.LinkOpens | kernel/arch/x86_64/mm/vmm.c:25-34 | linking a blank page on the path of an address saves exactly the addresses that share that path down to there one missing table, and no others |
| Paths.OpensAll | kernel/arch/x86_64/mm/vmm.c:36-39 | after an address has its path, any other lacks the tables it lacked or those below the last shared one, whichever are fewer |
| Paths.MappedMore | kernel/arch/x86_64/mm/vmm.c:36-43 | the same for a list of addresses mapped one after the other |
| Paths.NextTables | kernel/arch/x86_64/mm/vmm.c:36-43 | the tables a list of mappings takes, address by address, counting every shared table once |
| Paths.TablesBound | kernel/arch/x86_64/mm/vmm.c:96-133 | at most three tables for each page and two for each 2 MiB page |
| Vmm.FlatAt | kernel/arch/x86_64/mm/vmm.c:64-91 | the flat map at the page of an address is the walk of that address |
| Vmm.Vmm.GetOrCreate | kernel/arch/x86_64/mm/vmm.c:25-34 | the table below an entry, created if missing; keeps the tree, the flat map and the separation of tables and free frames; panics exactly when a frame is needed and pmm_alloc returns 0; takes one frame exactly when the entry was empty |
| Vmm.Vmm.MakeUpper | kernel/arch/x86_64/mm/vmm.c:121-124 | the same down to the page directory |
| Vmm.Vmm.MakePath | kernel/arch/x86_64/mm/vmm.c:36-39 | the page table of an address with all tables above it; translations unchanged; panics exactly when the frames for the missing tables cannot be had, and otherwise takes exactly these |
| Vmm.Vmm.StorePte | kernel/arch/x86_64/mm/vmm.c:41-42 | one entry written and its page flushed, with the processor free to cache either entry in between: afterwards every cached translation is current again |
| Vmm.Vmm.Map | kernel/arch/x86_64/mm/vmm.c:36-43 | on a path without large pages the flat map is updated at exactly one page: to the frame of (phys \| flags) inside the address mask, with the flags asked for; over the walk the page then allows writing, execution and global use exactly as flags ask, and no user mode, and every other address keeps its rights; panics exactly when the missing tables cannot be allocated, and takes exactly so many frames; no cached translation is stale |
| Vmm.MapRights | kernel/arch/x86_64/mm/vmm.c:36-43 | an update of the flat map at one page changes the rights of that page, taken over the walk, to the granted ones and those of no other |
| Vmm.AskedExact | kernel/arch/x86_64/mm/vmm.c:25-43 | vmm_map grants all it is asked for exactly when that does not include user mode: the tables above the page never have the user bit |
| Vmm.Vmm.Unmap | kernel/arch/x86_64/mm/vmm.c:45-62 | exactly one page leaves the flat map; no frame is freed; no cached translation is stale |
| Vmm.Vmm.GetPhys | kernel/arch/x86_64/mm/vmm.c:64-91 | the translation of the flat map, with 1 GiB, 2 MiB and 4 KiB pages; 0 exactly when the page is unmapped or the address maps to physical byte 0 |
| Vmm.ZeroExact | kernel/arch/x86_64/mm/vmm.c:64-91 | a translation is 0 if and only if the page is unmapped, or mapped to frame 0 and the offset in the page is 0 |
| Vmm.FirstByteIsZero | kernel/arch/x86_64/mm/vmm.c:114-126 | the first byte of the direct map is mapped and translates to 0 |
| Entries.FrameExact | kernel/arch/x86_64/mm/vmm.c:41 | the entry that vmm_map writes holds the frame of phys exactly when the flags add no address bit to it |
| Vmm.MapTranslates | kernel/arch/x86_64/mm/vmm.c:36-43 | after vmm_map with flags outside the address mask, virt translates to the frame of phys plus its own offset, and every page that differs in bits 12-47 translates as before |
| Vmm.UnmapTranslates | kernel/arch/x86_64/mm/vmm.c:45-62 | after vmm_unmap virt translates to 0, and every page that differs in bits 12-47 as before |
| Vmm.Vmm.MapRegion | kernel/arch/x86_64/mm/vmm.c:96-103 | each page of the region gets its own frame, that was free, is distinct from every other frame of the region and from every table, and the rights that flags ask for; all other pages keep translation and rights; panics exactly when frame 0 is free or fewer frames are than the pages and their missing tables need, shared tables counted once |
| Vmm.RoundedExact | kernel/arch/x86_64/mm/vmm.c:97-98 | the pages cover the region and no page more, exactly when its size does not wrap around |
| Vmm.Vmm.MapHuge | kernel/arch/x86_64/mm/vmm.c:121-126 | one 2 MiB region mapped, with the flags of a large page (their rights: Vmm.DirectRights); translations and flags elsewhere unchanged; panics exactly when the missing tables above the entry cannot be allocated |
| Vmm.Vmm.MapHhdm | kernel/arch/x86_64/mm/vmm.c:114-126 | exactly the first n 2 MiB regions are mapped at the offset, with the flags of a large page, and nothing else; panics exactly when frame 0 is free or fewer frames are than their tables need |
| Vmm.RegionsExact | kernel/arch/x86_64/mm/vmm.c:117-121 | the large pages cover all physical memory and 4 GiB, and no page more |
| Vmm.Vmm.MapLinear | kernel/arch/x86_64/mm/vmm.c:128-133 | each of n pages translates to the frame at the same offset with the flags asked for, all other pages as before; panics exactly when frame 0 is free or fewer frames are than their missing tables need |
| Vmm.DirectTarget | kernel/arch/x86_64/mm/vmm.c:114-126 | every byte of the direct map translates to its offset |
| Vmm.DirectRights | kernel/arch/x86_64/mm/vmm.c:114-126 | over the walk, every byte of the direct map is writable, global and kernel-only |
| Vmm.LinearTarget | kernel/arch/x86_64/mm/vmm.c:128-133 | every byte of a linear mapping translates to the byte at the same offset |
| Vmm.KernelElsewhere | kernel/arch/x86_64/mm/vmm.c:105-137 | mapping the kernel image leaves the direct map alone |
| Vmm.NothingElse | kernel/arch/x86_64/mm/vmm.c:105-137 | outside the direct map and the kernel image nothing is mapped |
| Vmm.Vmm.Init | kernel/arch/x86_64/mm/vmm.c:105-137 | vmm_get_phys(p + hhdm_offset) = p for every byte below the mapped size (at least 4 GiB, rounded up to 2 MiB), the kernel range translates linearly, every byte of both is writable, global and kernel-only over the walk, and nothing else is mapped; panics exactly when frame 0 is free or fewer frames are than the PML4 and the tables of both mappings, a number that depends on the addresses only |
| Vmm.InitFramesBound | kernel/arch/x86_64/mm/vmm.c:105-137 | that number is at most 1 + 2 x large pages + 3 x kernel pages |
| HeapBytes.FieldRead | kernel/arch/x86_64/mm/heap.c:13-19 | the bytes at a field's offset are that field of the header, little-endian |
| HeapBytes.FieldWrite | kernel/arch/x86_64/mm/heap.c:13-19 | writing the bytes of a field changes that field of the header and nothing else |
| HeapBlocks.RoundUpEnough | kernel/arch/x86_64/mm/heap.c:67-68 | the rounded size is the least multiple of 16 that is at least the request, exactly when size + 15 does not wrap |
| HeapBlocks.FirstFit | kernel/arch/x86_64/mm/heap.c:70-82 | the lowest free block that is large enough, or none |
| HeapBlocks.AllocPairs | kernel/arch/x86_64/mm/heap.c:64-85 | kmalloc never increases the number of adjacent free pairs |
| HeapBlocks.FreePairsKept | kernel/arch/x86_64/mm/heap.c:96-128 | kfree of a used block keeps the number of adjacent free pairs |
| HeapBlocks.SplitPairs | kernel/arch/x86_64/mm/heap.c:46-61 | splitting adds at most one adjacent free pair, and none if the next block is used or absent |
| HeapBlocks.FreeUndoesAlloc | kernel/arch/x86_64/mm/heap.c:64-128 | kfree right after kmalloc restores the block list exactly when the chosen block had no free neighbour that kfree joins to it |
| HeapBlocks.CutNotRestored | kernel/arch/x86_64/mm/heap.c:64-152 | a run, from a heap that heap_init builds, in which it does not: a block is cut by krealloc, the rest is allocated and freed again |
| HeapBlocks.RunKeeps | kernel/arch/x86_64/mm/heap.c:46-152 | over every run the blocks tile the heap, and only shrinks in place can add adjacent free pairs, one each |
| HeapBlocks.StepLive | kernel/arch/x86_64/mm/heap.c:46-152 | a call changes the set of live blocks by exactly the block that it hands out, frees or cuts |
| HeapBlocks.AllFreedRestores | kernel/arch/x86_64/mm/heap.c:46-152 | over every run without such shrinks, when everything is freed the heap is the single initial block |
| HeapBlocks.NoAdjacentFree | kernel/arch/x86_64/mm/heap.c:46-152 | over every run without such shrinks, no two free blocks are adjacent and kfree right after kmalloc restores the exact block list |
| Heap.PayloadApart | kernel/arch/x86_64/mm/heap.c:46-61 | no byte of a payload lies in any header |
| Heap.PayloadsDisjoint | kernel/arch/x86_64/mm/heap.c:46-61 | payloads of different blocks are disjoint |
| Heap.Heap.constructor | kernel/arch/x86_64/mm/heap.c:26 | before heap_init there is no block list |
| Heap.Heap.Init | kernel/arch/x86_64/mm/heap.c:29-43 | one free block for the aligned rest of the heap; panics exactly when it cannot hold a header and a byte |
| Heap.Heap.MaybeSplit | kernel/arch/x86_64/mm/heap.c:46-61 | the list is split at the requested size exactly when the rest can hold a header and 16 bytes; only headers are written |
| Heap.Heap.FindFit | kernel/arch/x86_64/mm/heap.c:70-82 | the walk over the links ends at the first adequate free block, and the magic check never fires |
| Heap.Heap.Kmalloc | kernel/arch/x86_64/mm/heap.c:64-85 | the address of the lowest adequate free block, 0 exactly when there is none (or size is 0, or there is no heap); the list in memory stays a 16-aligned, doubly linked tiling with the magic in every header; only headers are written |
| Heap.Heap.Kcalloc | kernel/arch/x86_64/mm/heap.c:88-93 | kmalloc of the product, at the address kmalloc gives it, with its bytes zeroed; no other live payload changes |
| Heap.Heap.Kfree | kernel/arch/x86_64/mm/heap.c:96-128 | the block is joined with both free neighbours and only headers are written; panics exactly when the header before the pointer is not that of a used block, which it never is right after kfree: a second kfree panics |
| Heap.Heap.Krealloc | kernel/arch/x86_64/mm/heap.c:131-152 | is kmalloc for null; stays when it fits, otherwise moves; the first min(old, new) bytes survive either way; on failure nothing changes; no other live payload changes |
| Heap.CutAndFree | kernel/arch/x86_64/mm/heap.c:29-152 | the same run as calls of heap_init, kmalloc, krealloc, kmalloc and kfree |
| Lexer.Lexer.constructor | kernel/lang/polskiscript.c:131-137 | the lexer starts at offset 0, line 1, column 1 |
| Lexer.Lexer.Advance | kernel/lang/polskiscript.c:12-27 | one character on, and never past the end; line and column stay those of the position |
| Lexer.Lexer.SkipWhitespace | kernel/lang/polskiscript.c:33-38 | passes the run of white space at the position, and nothing else |
| Lexer.Lexer.SkipComment | kernel/lang/polskiscript.c:40-46 | passes a comment up to its newline |
| Lexer.Lexer.Number | kernel/lang/polskiscript.c:58-76 | the digits with at most one dot, cut to 255 characters, at the position of the first |
| Lexer.NumberExact | kernel/lang/polskiscript.c:58-76 | the literal is the longest run of digits with at most one dot |
| Lexer.Lexer.Text | kernel/lang/polskiscript.c:78-96 | the characters up to the closing quote or the end, cut to 255 |
| Lexer.Lexer.Word | kernel/lang/polskiscript.c:98-129 | the word characters, cut to 255, and their keyword kind |
| Lexer.LengthsExact | kernel/lang/polskiscript.c:78-108 | a word is the longest run of word characters, a text ends at the first quote or the end |
| Lexer.CharactersExact | kernel/lang/polskiscript.c:33-110 | which characters are white space, digits and letters |
| Lexer.KeywordsOnly | kernel/lang/polskiscript.c:112-128 | a word other than fourteen is a name |
| Lexer.DeclarationWords | kernel/lang/polskiscript.c:113-121 | the kinds of four keywords |
| Lexer.ControlWords | kernel/lang/polskiscript.c:116-119 | the kinds of four keywords |
| Lexer.LeavingWords | kernel/lang/polskiscript.c:115-123 | the kinds of three keywords |
| Lexer.ValueWords | kernel/lang/polskiscript.c:124-126 | the kinds of three keywords |
| Lexer.SymbolsExact | kernel/lang/polskiscript.c:200-226 | the kind of each single character, and that no other has one |
| Lexer.PairsExact | kernel/lang/polskiscript.c:170-197 | the kind of each pair of characters, and that no other pair is one token |
| Lexer.Lexer.NextToken | kernel/lang/polskiscript.c:139-231 | the token after all white space and comments, with the true line and column of its first character |
| Lexer.Scan | kernel/lang/polskiscript.c:139-231 | a call advances strictly unless at the end, and gives the end token exactly there |
| Lexer.GapIsGap | kernel/lang/polskiscript.c:33-46 | what is skipped between tokens is white space and comments, and all of it |
| Lexer.SpansCount | kernel/lang/polskiscript.c:139-231 | there is one span for each token |
| Lexer.SpansInOrder | kernel/lang/polskiscript.c:139-231 | token spans are not empty, ordered and disjoint, with only white space and comments before, between and after them |
| Lexer.PositionUnique | kernel/lang/polskiscript.c:12-27 | a position has one line and column |
| Parser.ReadInt | kernel/lang/polskiscript.c:348-352 | the digits as a number |
| Parser.ReadFloat | kernel/lang/polskiscript.c:332-345 | the digits and the fraction as a real number |
| Syntax.FloatExact | kernel/lang/polskiscript.c:330-345 | a literal a.b is read as the number a plus b tenths to the power of the length of b |
| Parser.ReadNumber | kernel/lang/polskiscript.c:319-353 | a literal with a dot is a float, without one an integer |
| Parser.Parser.constructor | kernel/lang/polskiscript.c:667-672 | all tokens of the source are ahead |
| Parser.Parser.Advance | kernel/lang/polskiscript.c:295-297 | one token on |
| Parser.Parser.Expect | kernel/lang/polskiscript.c:299-310 | passes the expected token, or sets the error and stays |
| Parser.Parser.Primary | kernel/lang/polskiscript.c:316-410 | the tree and the rest of the tokens of parser_parse_primary, on every input |
| Parser.Parser.Unary | kernel/lang/polskiscript.c:412-425 | prefix operators |
| Parser.Parser.Binary | kernel/lang/polskiscript.c:427-512 | the four left-associative levels; ends on every input, by (tokens left, level) |
| Parser.Parser.Block | kernel/lang/polskiscript.c:514-527 | the statements up to the closing brace, the end or an error |
| Parser.Parser.Statement | kernel/lang/polskiscript.c:529-665 | the tree, the rest of the tokens and the error state of a statement |
| Parser.Parser.Program | kernel/lang/polskiscript.c:674-689 | the tree of a whole source, or none on an error; Completeness.AcceptsExactly says of which token sequences |
| Parser.ParseSource | kernel/lang/polskiscript.c:1106-1113 | lexing and parsing a source string |
| Completeness.AcceptsExactly | kernel/lang/polskiscript.c:295-689 | the parser ends without an error, and with a tree, if and only if the tokens derive from the grammar, stated on tokens with every semicolon, parenthesis and brace |
| Acceptance.AcceptedDerives | kernel/lang/polskiscript.c:295-689 | soundness: what the parser accepts derives from the grammar |
| Completeness.ReadProgram | kernel/lang/polskiscript.c:674-689 | completeness: whatever derives from the grammar is read to its end without an error |
| Completeness.MissingExpression | kernel/lang/polskiscript.c:316-410 | `zmienna x = ;` is accepted |
| Syntax.Statement | kernel/lang/polskiscript.c:529-665 | a statement consumes a token exactly when its first token starts one; otherwise nothing happens at all |
| Syntax.OperatorsExact | kernel/lang/polskiscript.c:427-508 | which operators belong to which level |
| Syntax.StrayToken | kernel/lang/polskiscript.c:674-686 | where a statement of the program is due, the loop stays at a token forever exactly when no statement starts with it |
| Syntax.StrayInBlock | kernel/lang/polskiscript.c:514-527 | the same for the loop of a block, at any token but the closing brace |
| Syntax.LoneParenthesis | kernel/lang/polskiscript.c:674-686 | the program of one closing parenthesis is such a source |
| Syntax.ParenthesisInBlock | kernel/lang/polskiscript.c:514-527 | the program {)} is one that stays inside a block |
| Relexing.LexUndoesRender | kernel/lang/polskiscript.c:58-231 | lexing the text of printable tokens gives these tokens |
| Relexing.StmtsWritable | kernel/lang/polskiscript.c:58-231 | the printed tokens of every well-formed program are such tokens |
| RoundTrip.DigitsRead | kernel/lang/polskiscript.c:348-352 | the decimal digits of a number are read back as that number |
| RoundTrip.ParseExpr | kernel/lang/polskiscript.c:412-508 | each level reads back an expression printed for it, with parentheses only where the levels and left associativity need them |
| RoundTrip.ParseArgs | kernel/lang/polskiscript.c:388-397 | the argument loop reads back a printed argument list |
| RoundTrip.ParseStmt | kernel/lang/polskiscript.c:529-662 | a printed statement is read back |
| RoundTrip.ParseItems | kernel/lang/polskiscript.c:514-527 | a printed block body is read back |
| RoundTrip.ParseUndoesPrint | kernel/lang/polskiscript.c:58-689 | lexing and parsing the printed text of any well-formed program gives its tree and no error |
| Interp.Environment.constructor | kernel/lang/polskiscript.c:776-782 | no names |
| Interp.Environment.Lookup | kernel/lang/polskiscript.c:799-800 | the search loop finds the first slot of a name |
| Interp.Environment.EnvDefine | kernel/lang/polskiscript.c:795-811 | overwrites or appends; does nothing when 256 names are in use |
| Interp.Environment.EnvGet | kernel/lang/polskiscript.c:813-825 | the value of a name, if defined |
| Interp.Environment.EnvSet | kernel/lang/polskiscript.c:827-841 | overwrites a defined name, and says whether there is one |
| Interp.GetSetIsMap | kernel/lang/polskiscript.c:813-841 | env_get and env_set are lookup and update of a finite map |
| Interp.DefineIsMap | kernel/lang/polskiscript.c:795-811 | env_define is an update of that map exactly when fewer than 256 names are in use or nothing would change |
| Interp.FullDrops | kernel/lang/polskiscript.c:795-811 | after 256 definitions of two-letter names, another name cannot be defined |
| Interpreter.Interpreter.constructor | kernel/lang/polskiscript.c:847-856 | empty environment, flags clear |
| Interpreter.Interpreter.Eval | kernel/lang/polskiscript.c:863-1104 | the flag-driven evaluation of a tree, step by step as its value-level definition says |
| Interpreter.Interpreter.Print | kernel/lang/polskiscript.c:1019-1028 | all values, blanks between them, a newline; goes on after an error |
| Interpreter.Interpreter.Loop | kernel/lang/polskiscript.c:1043-1064 | the loop with its break, continue and return tests |
| Interpreter.Interpreter.Block | kernel/lang/polskiscript.c:1084-1091 | stops at the first set flag |
| Interpreter.Interpreter.Program | kernel/lang/polskiscript.c:1093-1099 | stops at an error only |
| BigStep.LessOrEqual | kernel/lang/polskiscript.c:969-984 | <= and >= are answered by the tests for < and >: right exactly when the operands differ |
| BigStep.OneNotLessOrEqual | kernel/lang/polskiscript.c:969-984 | 1 <= 1 evaluates to falsz |
| BigStep.OperatorMeaning | kernel/lang/polskiscript.c:910-1001 | the first-character and whole-string tests together compute the meaning of each operator, stated without the evaluator's own functions |
| Interp.DivisionLaw | kernel/lang/polskiscript.c:943-955 | q and r are the results of / and % if and only if a = b * q + r, the remainder is smaller than b in magnitude, and it is 0 or has the sign of a |
| BigStep.DivisionMeaning | kernel/lang/polskiscript.c:943-955 | the evaluator's / and % are, for all signs, how often the divisor's magnitude goes into the dividend's, and what is left, as the semantics states them |
| BigStep.EvalExpr | kernel/lang/polskiscript.c:863-1017 | an expression evaluates to its value and changes nothing, or ends in an error or undefined behaviour exactly when it has no value |
| BigStep.NameError | kernel/lang/polskiscript.c:881-890 | a name that is not defined is an error |
| BigStep.DivisionError | kernel/lang/polskiscript.c:943-949 | a division by zero is an error |
| BigStep.AssignError | kernel/lang/polskiscript.c:901-908 | an assignment to a name that is not defined is an error |
| BigStep.AfterError | kernel/lang/polskiscript.c:863-864 | after an error nothing is evaluated |
| BigStep.EvalFollows | kernel/lang/polskiscript.c:863-1091 | an evaluation from clear flags that ends without an error is a run of the big-step semantics, with the completion its flags stand for |
| BigStep.EvaluatorIsSemantics | kernel/lang/polskiscript.c:863-1091 | for every statement over integers and truth values: the evaluator can end without an error, with a completion, variables and output, if and only if the big-step semantics can (fewer than 256 names) |
| BigStep.LoopClearsFlags | kernel/lang/polskiscript.c:1043-1064 | a dopoki that ends without an error leaves the break and continue flags clear |
| BigStep.ProgramIsBlock | kernel/lang/polskiscript.c:1084-1099 | AST_PROGRAM does what AST_BLOCK does when nothing leaves the block |
| BigStep.ProgramRuns | kernel/lang/polskiscript.c:1093-1099 | a program that the semantics runs to its end is evaluated to the same variables and output |
| BigStep.ProgramIsSemantics | kernel/lang/polskiscript.c:1093-1099 | a program with no zwroc, and przerwij and kontynuuj only inside loops, can be evaluated to an end if and only if the semantics runs it there |
| BigStep.StrayBreak | kernel/lang/polskiscript.c:1093-1099 | with a przerwij outside a loop this is false: AST_PROGRAM goes on, and the next loop runs one statement and clears the flag |
| BigStep.EvalMore | kernel/lang/polskiscript.c:1043-1064 | a larger bound on loop rounds changes no finished evaluation |
| Execution.ExecutePrinted | kernel/lang/polskiscript.c:1106-1131 | for a program that the semantics runs to its end, lexing, parsing and evaluating its printed text gives the variables and output of the semantics, for all large enough bounds on loop rounds |
| Execution.OnlyPrinted | kernel/lang/polskiscript.c:1106-1131 | and for programs as in ProgramIsSemantics only if the semantics runs them there |
| Execution.Execute | kernel/lang/polskiscript.c:1106-1131 | interpreter_execute: what the evaluator does on the tree of the source; nothing at all when there is none |
| Execution.ShowIsFormat | kernel/lang/polskiscript.c:741-743 | an integer is shown as %lld prints its 64-bit word |
| Execution.ShowOthers | kernel/lang/polskiscript.c:736-751 | truth values and nic are shown as their formats print them |
| Nvme.HeadPhase | kernel/drivers/nvme.c:154-167 | the slot at the head shows the expected phase if and only if the completion due there has been posted, and then it holds that completion |
| Nvme.SlotAppend | kernel/drivers/nvme.c:154-167 | a new completion goes to its slot and changes no other |
| Nvme.MemoryHead | kernel/drivers/nvme.c:156-160 | what the driver reads at the head is the answer to the command with that number |
| Nvme.QueuePair.constructor | kernel/drivers/nvme.c:86-106 | both queues empty, expected phase 1 |
| Nvme.TaggedExact | kernel/drivers/nvme.c:147-148 | the tagged command has all fields of the caller's and the low 16 bits of its cdw0; the upper 16 bits are the identifier |
| Nvme.QueuePair.Place | kernel/drivers/nvme.c:147-152 | the entry at the tail has the caller's other fields and low 16 bits of cdw0, and above them the number of commands submitted before, modulo 2^16; tail and doorbell move on by one slot and no other slot changes |
| Nvme.QueuePair.Poll | kernel/drivers/nvme.c:156-176 | a completion is taken exactly when one is due; its identifier is that of the command it answers; head and phase wrap together |
| Nvme.QueuePair.Submit | kernel/drivers/nvme.c:146-214 | the command goes out field by field as the caller gave it, with its number modulo 2^16 as identifier; the result is the status of the command submitted as many calls earlier as had timed out before: of this very command exactly when none had; gives up exactly when no completion is left from before and the controller makes no step while it polls |
| Nvme.LateAnswer | kernel/drivers/nvme.c:146-214 | two submits, the controller idle during the first: the first times out, and the second reports the failure of the first command although its own succeeds |
| Nvme.QueuePair.SubmitAll | kernel/drivers/nvme.c:146-214 | without timeouts the n-th submit returns the status of exactly the n-th command, for every n; a submit times out exactly when the controller makes no step while it polls |
| Crc.StepLinear | kernel/installer/installer.c:104-107 | the shift step is linear |
| Crc.StepInjective | kernel/installer/installer.c:104-107 | the shift step is injective |
| Crc.FoldAppend | kernel/installer/installer.c:99-109 | the register after two messages joined |
| Crc.FoldInjective | kernel/installer/installer.c:99-109 | different registers stay different over any message |
| Crc.FoldLittle | kernel/installer/installer.c:101-109 | up to four bytes may as well be put in at once |
| Crc.BurstDetected | kernel/installer/installer.c:98-111 | messages of equal length that differ only inside four consecutive bytes have different CRCs |
| Crc.ComputeCrc32 | kernel/installer/installer.c:98-111 | the bitwise loop computes the CRC |
| Crc.CheckValue | kernel/installer/installer.c:98-111 | the digits 1 to 9 have the CRC 0xCBF43926 |
| Crc.SectorCrc | kernel/installer/installer.c:268-285 | the sector-by-sector loop gives the CRC of the joined sectors, for any number of them |
| Checksum.IpChecksum | kernel/net/ipv4.c:13-31 | the 32-bit sum never overflows, the carries end, and the result is the one's complement sum |
| Checksum.FoldIs | kernel/net/ipv4.c:26-29 | adding the carries keeps the sum modulo 65535, and gives 0 only for 0 |
| Checksum.SumStore | kernel/net/ipv4.c:116-120 | storing an aligned word changes the sum by that word |
| Checksum.StoredIsZero | kernel/net/ipv4.c:116-120 | storing the checksum in its zeroed aligned word makes the checksum of the whole 0 |
| Checksum.SentIsAccepted | kernel/net/ipv4.c:142-151 | the receiver accepts what the sender stored |
| Checksum.AcceptsIffZero | kernel/net/ipv4.c:142-151 | the receiver's test is the zero-sum test except for a field of all ones after words that add up to all ones |
| Checksum.AllOnesRefused | kernel/net/ipv4.c:142-151 | such a header of 20 bytes |
| Checksum.ByteOrderIndependent | kernel/net/ipv4.c:13-31 | the stored bytes are those of the big-endian computation |
| Ring.StartInv | kernel/drivers/keyboard.c:50-53 | an empty ring satisfies the invariant |
| Ring.ProducerStep | kernel/drivers/keyboard.c:59-65 | every load and store of a push keeps the invariant |
| Ring.ConsumerStep | kernel/drivers/keyboard.c:67-72 | every load and store of a pop keeps the invariant |
| Ring.PushGoesIn | kernel/drivers/keyboard.c:59-65 | a push that is not interrupted stores its item and moves the head, on a ring that is not full |
| Ring.PushDropped | kernel/drivers/keyboard.c:59-65 | on a full ring it only counts as a drop |
| Ring.PopComesOut | kernel/drivers/keyboard.c:67-72 | a pop that is not interrupted takes the item at the tail |
| Ring.PopMisses | kernel/drivers/keyboard.c:67-72 | on an empty ring it finds nothing |
| Ring.PendingUntouched | kernel/net/ethernet.c:32-46 | no load or store changes the slot of an item still to be read |
| Ring.EveryInterleaving | kernel/net/ethernet.c:32-46 | for every interleaving: output is a prefix of the accepted pushes in order, nothing accepted is lost, drops happen only with all slots but one pending, empty pops only on an empty ring |
| Ring.KernelRings | kernel/drivers/keyboard.c:59-72 | drops happen only with 255 key presses or 31 packets pending |
| Tcp.StepInv | kernel/net/tcp.c:90-321 | every step keeps: active exactly when not CLOSED, bytes read plus bytes buffered are the bytes accepted, the buffer never overflows |
| Tcp.ArrivalExact | kernel/net/tcp.c:204-321 | for every socket and segment: which state it leads to (SYN answer, FIN in ESTABLISHED, FIN_WAIT1 and FIN_WAIT2, RST anywhere), the segments sent back, one ACK for each data segment, FIN and SYN answer, with their numbers, what is buffered, and what stays |
| Tcp.ArrivalIgnored | kernel/net/tcp.c:204-241 | a segment that fails the tests or matches no socket changes nothing |
| Tcp.MatchExact | kernel/net/tcp.c:230-241 | a segment goes to the first active socket with its addresses and ports |
| Tcp.RunEnds | kernel/net/tcp.c:173-321 | over any run of an open connection: the peer is done exactly when its FIN, or a reset, has come in the run or before |
| Tcp.ConnectExact | kernel/net/tcp.c:90-115 | a connect takes the first free socket, whose numbers, ports and state are stated, and sends one SYN |
| Tcp.ConnectRefused | kernel/net/tcp.c:90-99 | without a free socket nothing happens |
| Tcp.ConnectFailsExact | kernel/net/tcp.c:127-130 | a connect that has got no answer leaves its socket closed and free |
| Tcp.CloseExact | kernel/net/tcp.c:135-154 | a close sends one FIN with ACK and moves the sequence number by one exactly when the socket is established or the peer has closed; at its end the socket is blank |
| Tcp.TakeExact | kernel/net/tcp.c:182-191 | a read takes the first bytes of the buffer and leaves the others |
| Tcp.AcceptedIsReceived | kernel/net/tcp.c:204-321 | over any run the bytes accepted are the payload prefixes of the arriving segments that there was room for, in order, since the last reset of the socket |
| Tcp.EveryRun | kernel/net/tcp.c:90-321 | in every reachable state: active exactly when not CLOSED, the buffer never overflows, and the bytes read followed by the bytes buffered are the payload prefixes that came and fitted, joined in the order of arrival |
| Tcp.StepClimbs | kernel/net/tcp.c:90-321 | no step takes a state back, except opening a closed socket |
| Tcp.RunClimbs | kernel/net/tcp.c:90-321 | between two connects the state only climbs SYN_SENT < ESTABLISHED < CLOSE_WAIT < FIN_WAIT1 < FIN_WAIT2 < TIME_WAIT < CLOSED |
| Tcp.StreamDelivered | kernel/net/tcp.c:204-281 | over any run within one connection: if the data segments that come carry a peer's stream, each with the sequence number of its first byte, and each fits when it comes, then exactly the bytes that came are read or buffered in order, ack = peer ISN + 1 + their number modulo 2^32 while established, and when all have come and nothing is buffered the reader has the stream |
| Tcp.AckExact | kernel/net/tcp.c:265-274 | a data segment with the expected sequence number keeps the ack in step exactly when it fits |
| Tcp.FullBufferLoses | kernel/net/tcp.c:263-274 | a run from the start in which three segments of 1460 bytes come: 4380 bytes are acknowledged, 4096 are kept |
| Tcp.SendExact | kernel/net/tcp.c:62-85 | tcp_send counts up to 4096 bytes and moves the sequence number on by as many; one segment with the data goes out exactly when they are at most 1460, and none otherwise |
| Tcp.LongSendLost | kernel/net/tcp.c:159-168 | after a handshake 1461 bytes are counted as sent and none goes out |
| TcpStack.TcpStack.constructor | kernel/net/tcp.c:9-12 | all sockets closed |
| TcpStack.TcpStack.RxHandler | kernel/net/tcp.c:204-321 | one arrival step on the first matching socket, which Tcp.ArrivalExact states field by field |
| TcpStack.TcpStack.Await | kernel/net/tcp.c:117-125 | the waiting loop of the calls: the arrivals of each turn up to the first after which the wait is over |
| TcpStack.OverExact | kernel/net/tcp.c:117-189 | the states in which each wait ends |
| TcpStack.WaitsOnce | kernel/net/tcp.c:117-125 | the turn at which a wait ends is determined by what arrives |
| TcpStack.TcpStack.ConnectTo | kernel/net/tcp.c:90-130 | -1 and no change when all sockets are in use; otherwise a connect step and the arrivals of each turn up to the first that ends the wait: the socket exactly when it is then established, else -1 and the socket closed |
| TcpStack.TcpStack.SendData | kernel/net/tcp.c:159-168 | one send step, the number of bytes, at most 4096, returned, whether the segment goes out or not; -1 and no change exactly when the descriptor is bad or the socket is not established |
| TcpStack.TcpStack.ReceiveData | kernel/net/tcp.c:173-199 | -1 and no change for a bad descriptor; otherwise the arrivals up to the first turn after which bytes are buffered or the connection is closing: the next bytes of the buffer, or -1 when the deadline passes first; on a connected socket 0 exactly when nothing is buffered and the peer's FIN or a reset has come |
| TcpStack.TcpStack.CloseSocket | kernel/net/tcp.c:135-154 | a FIN exactly when the socket is established or the peer has closed, the arrivals up to the first turn that ends the wait, and then the socket is free |
| Numerals.DigitsReadBack | kernel/lib/printf.c:56-68 | the digits read back to the value in base 8, 10, 16 and every other base up to 16 |
| Printf.DigitLoop | kernel/lib/printf.c:60-68 | the loop finds the digits, last first |
| Format.NumberText | kernel/lib/printf.c:53-105 | for every style a number's text is its sign or prefix and digits that read back to it, at least as many as the precision, with blanks on the side the flags ask for or zeros, and exactly as long as the width and the precision demand |
| Format.SignedReadsBack | kernel/lib/printf.c:53-105 | the text of a signed number, for all flags, widths and precisions, reads back to it |
| Format.SignedConversion | kernel/lib/printf.c:160-169 | %d and %i print their signed argument: what they print reads back to it |
| Format.SignedExact | kernel/lib/printf.c:161-165 | that argument is the 32-bit or 64-bit number that the word stands for |
| Format.UnsignedText | kernel/lib/printf.c:170-193 | %u, %o, %x and %X print the argument of its width in base 10, 8 and 16, with the prefix that the flag asks for and in the case of the x |
| Format.PointerText | kernel/lib/printf.c:194-200 | %p prints 0x and the address in base 16 |
| Format.TextOut | kernel/lib/printf.c:201-205 | %s prints its argument, cut to the precision |
| Format.CharOut | kernel/lib/printf.c:206-211 | %c prints one character |
| Format.OtherOut | kernel/lib/printf.c:212-223 | %% prints a percent sign, and an unknown conversion is printed as it stands |
| Format.ConsumesExact | kernel/lib/printf.c:159-224 | which conversions take an argument |
| Format.DirectiveReads | kernel/lib/printf.c:119-158 | a written directive is read as the flags, width, precision, length and conversion it says, and the text goes on behind it |
| Format.LengthModifiers | kernel/lib/printf.c:145-156 | l and z read 64 bits, h and hh read 32 |
| Format.StarReads | kernel/lib/printf.c:130-143 | a star takes the width or the precision from the arguments |
| Format.IgnoredFlags | kernel/lib/printf.c:119-128 | blanks and plus signs among the flags are ignored |
| Format.PaddedString | kernel/lib/printf.c:32-50 | a string's text is the string cut to the precision, with blanks on one side, only as far as the width |
| Format.ConversionWidth | kernel/lib/printf.c:108-231 | every conversion with an argument is at least as wide as asked for |
| Printf.PrintCtx.Putchar | kernel/lib/printf.c:20-29 | a character is stored if a NUL still fits after it, and counted as output in any case |
| Printf.PrintCtx.WriteStr | kernel/lib/printf.c:32-50 | precision, width and alignment of a string |
| Printf.PrintCtx.FmtInt | kernel/lib/printf.c:53-105 | sign or prefix, zeros, digits and padding of a number |
| Printf.PrintCtx.Vfmt | kernel/lib/printf.c:108-231 | the whole format, directive by directive |
| Printf.Kvsnprintf | kernel/lib/printf.c:247-250 | the first min(size - 1, n) of the n characters of the unlimited output, a NUL, nothing else of the buffer written, and n returned |
| IpText.Prints | kernel/net/ethernet.c:88-92 | ip_to_str prints the four bytes in decimal |
| IpText.StrToIp | kernel/net/ethernet.c:94-106 | the loops of str_to_ip |
| IpText.IpRoundTrip | kernel/net/ethernet.c:88-106 | the text fits the 16-byte buffer, and str_to_ip reads the address back |
| IpText.PrintAndParse | kernel/net/ethernet.c:88-106 | ip_to_str through the formatter and str_to_ip back |

## Left out

Behaviour where the code does not do what one might expect, kept as it is, with the exact condition and a concrete input or run:

- The receiver of IPv4 headers refuses one header that the zero-sum test accepts (`Checksum.AcceptsIffZero`, `Checksum.AllOnesRefused`).
- Bytes that do not fit a TCP receive buffer are acknowledged (`Tcp.AckExact`, `Tcp.FullBufferLoses`).
- A send of more than 1460 bytes is counted and never goes out, since ipv4_send refuses it (`Tcp.SendExact`, `Tcp.LongSendLost`).
- 0 is the result of vmm_get_phys for an unmapped page and for the mapped physical byte 0 (`Vmm.ZeroExact`, `Vmm.FirstByteIsZero`).
- A page mapped with the user flag is not open to user mode, since no table above it has that bit (`PageTables.AccessExact`, `Vmm.AskedExact`).
- A program may lack an expression where one is due; the accepted token sequences are those of `Grammar.IsStmts` (`Completeness.AcceptsExactly`, `Completeness.MissingExpression`).
- A bitmap that does not start on a page boundary reaches into a frame that is not marked for it (`Pmm.BitmapPages`, `Pmm.UnalignedBitmap`).
- A completion that arrives after a timeout is taken for a later command's (`Nvme.QueuePair.Submit`, `Nvme.LateAnswer`).
- `<=` and `>=` are `<` and `>` (`BigStep.LessOrEqual`, `BigStep.OneNotLessOrEqual`).
- With 256 names in use a definition is lost, even of an existing name (`Interp.DefineIsMap`, `Interp.FullDrops`).
- A stray token makes the statement loops of the parser spin, in a program (`Syntax.StrayToken`, `Syntax.LoneParenthesis`) and in a block (`Syntax.StrayInBlock`, `Syntax.ParenthesisInBlock`).
- kfree right after kmalloc can join a neighbour that an earlier shrink left free (`HeapBlocks.FreeUndoesAlloc`, `HeapBlocks.CutNotRestored`, `Heap.CutAndFree`).
- A program goes on after `przerwij` outside a loop (`BigStep.ProgramIsSemantics`, `BigStep.StrayBreak`); that no `zwroc` and no such `przerwij` or `kontynuuj` occurs is sufficient, and not necessary where such a statement is never reached.

Memory:

- Kernel pointers: table pages, the bitmap and zeroed frames are addressed by physical address; the HHDM offset of the kernel's own pointers is not added and subtracted.
- The frame bitmap is an array of its own and not part of the shared memory. That the allocator does not write to its pages is proved over runs (`Pmm.BitmapKept`); that the rest of the kernel writes only to frames it was given is assumed.
- `kpanic` is a result that ends the call; what the state is after a panic is not stated.
- Vmm.Vmm.Map: requires a path without large pages, since vmm_map does not test PAGE_HUGE.
- Vmm.Vmm.Unmap: requires a path without large pages, since vmm_unmap does not test PAGE_HUGE.
- Vmm.Vmm.MapRegion: requires paths without large pages and flags without address bits.
- Vmm.Vmm.Init: requires a 2 MiB-aligned HHDM offset, less than 2^48 bytes to map, and a kernel image outside the direct map; `write_cr3` is not modelled.
- Pmm.Pmm.Init: requires that no usable entry reaches beyond 2^64 and that the frames fit the 52-bit physical addresses of a page table entry.
- Heap.Heap.Kcalloc: requires a product that, as a 64-bit number, is at most 2^64 - 16.
- Heap.Heap.Kfree: requires that a pointer whose header looks like that of a used block is a live pointer, and that the header lies in memory; a stale header inside a payload is not told apart by the source.
- Heap.Heap.Krealloc: requires null or a live pointer.
- Messages printed by the allocators.

PolskiScript:

- Expression statements: the source rewinds the lexer to an absolute offset taken from a column; the model stops with `Rewinds` there.
- Syntax tree nodes and token values are values: kmalloc failures, sharing and freeing of nodes are not modelled.
- Integer literals beyond 63 bits (undefined in C) are read as unbounded numbers; floats are real numbers.
- String and float values in the evaluator, error texts, and environments with a parent (none is ever created).
- Undefined behaviour of the evaluator (`%` by zero, 64-bit overflow, the truth of `nic`, missing operands) is one outcome, `Lost`.
- BigStep.EvaluatorIsSemantics: for runs that end with fewer than 256 names.
- The evaluator's recursion is bounded by the tree, and its loops by a number of rounds; a run that goes round forever has no bound that suffices.
- The REPL.

Protocols and arithmetic:

- Nvme.QueuePair.Submit: requires fewer than 63 commands that the controller has not taken; the source does not test this, and it always holds without timeouts. Registers, namespaces and data transfer are not modelled.
- The controller answers commands in the order of submission.
- Ring: items are stored and loaded as a whole or in parts; packets are items already cut to 1518 bytes. The keyboard's scan-code translation.
- tcp_checksum, header lengths and the length limit of a segment are one flag; the resolution of addresses and the network driver always succeed; clocks are the list of what arrives before a deadline; window, urgent pointer and retransmission do not exist in the source or are not modelled.
- Crc.SectorCrc: the sectors as read; reading them and the rest of the installer are not modelled.
- Checksum: the other fields of the IPv4 header, ARP and delivery.
- Printf.Kvsnprintf: requires a format without a dangling percent sign, behind which the source reads past the terminator; a missing or mistyped argument reads as zero or a null pointer; the width and precision of a format are not limited to 32 bits. Output to devices.
- Framebuffer, windows, shell, PCI, ACPI, interrupts, timers, e1000, DHCP, DNS, ARP, VFS and services.
