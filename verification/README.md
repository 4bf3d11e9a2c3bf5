# A model of the iPXE core

This project models the core of the iPXE boot firmware as it is kept under
`3pp_cnz/ipxe/ipxe_caa`, and proves what that code is meant to guarantee.  One
Dafny module stands for one source file or for one aspect of it.

| module | subject |
|---|---|
| `FreeList`, `Malloc`, `HeapState`, `HeapModel` | the heap: free list, first fit with alignment, release with merging, counters, cache discarding, `realloc` with contents |
| `Iobuf` | I/O buffers with inline or detached descriptors, on that heap; splitting and concatenation with contents |
| `UriCodec`, `Uri`, `UriLayout`, `UriRoundTrip`, `UriBuffer`, `UriPrinter` | percent-encoding; parsing and printing as functions; the rules that parsing alone satisfies; the exact round trip; parsing in place in one buffer; printing into a bounded buffer |
| `Fdt`, `FdtLookup`, `FdtBounds` | flattened device tree lookup: on the serialisation of any tree, and how far it reaches on any blob |
| `Interface` | plugged interfaces, reference counts, recursive close |
| `Base64`, `AesWrap` | the two codecs, with aliasing for the latter |
| `Sanboot` | the multipath SAN device |
| `Linebuf`, `Exec`, `Gdbstub` | line reassembly, command lines, the GDB packet protocol |
| `Profile`, `Time`, `Isqrt`, `Random` | exact integer arithmetic |
| `CLib`, `Arith` | shared definitions and arithmetic |

State that the code changes in place is a class whose methods are tied to
functions or transition predicates on values; what the code promises is then
proved of those for every input and every run.

Nine promises or remarks in the code turn out not to hold as they stand.  Each has
a concrete counterexample and the exact condition under which it does hold:

- Remainders too small to keep are said to be dropped only at the very start or
  end of the heap (`Malloc.LeakInTheMiddle`; `HeapState.RunLeaksOnlyAtEdges` and
  `Malloc.OffGridLeaks`).
- The free list is asserted to hold no block below the minimum size, but adding
  too little memory to the heap links in an empty one
  (`HeapState.EmptyBlockLinked`, `HeapState.PopulatedKeepsInv`).
- URI fields do not all survive printing and parsing
  (`UriRoundTrip.ColonInHostIsLost`, `UriRoundTrip.ParseFormat`;
  `UriCodec.DecodeEncodeHighChar`, `UriCodec.DecodeEncodeExact`).
- A registered device tree is asserted to be traversed inside its bounds, and its
  strings to be terminated safely (`FdtBounds.NopBlobLeaves`,
  `FdtBounds.NopsLeaveTheBlob`, `FdtBounds.NameAtEndLeaves`;
  `FdtBounds.BoundsExact`).
- Key wrapping is said to work in place (`AesWrap.ZeroesInPlace`,
  `AesWrap.WrapInPlace`).
- Key wrapping is said to be that of RFC 3394, but its byte-wide counter makes it
  so only for up to 42 blocks (`AesWrap.WrapDiffers`,
  `AesWrap.WrapStandardExactly`).
- Reopening a SAN device can report success without an active path as soon as
  there are two paths (`Sanboot.LosingEnvironment`, `Sanboot.ReopenRight`;
  `Sanboot.BatchBound` for the number of events it takes).
- An over-long GDB packet is said to fail its checksum
  (`Gdbstub.LongFrameAccepted`, `Gdbstub.FrameParsed`).
- The profiler is said to need only that the high bit of a sample is zero
  (`Profile.ShiftsWrap`, `Profile.ShiftsExact`).

Where code and remarks differ, the model follows the code.

What lies outside the modelled files is a parameter: whether memory is available,
the block cipher and its inverse, the contents of the command table and of
settings, what arrives from the network, and the clock.

## Model

| member | source | states |
|---|---|---|
| `FreeList.CanonicalUnique` | 3pp_cnz/ipxe/ipxe_caa/core/malloc.c:205-235 | two free lists that pass the block check (ascending, apart, no block too small) and cover the same bytes are the same list |
| `FreeList.InsertReleases` | 3pp_cnz/ipxe/ipxe_caa/core/malloc.c:450-491 | linking a block in at its place adds exactly its bytes and keeps the list canonical when it touches no neighbour |
| `FreeList.MergeReleases` | 3pp_cnz/ipxe/ipxe_caa/core/malloc.c:458-491 | a block absorbed into its upper neighbour adds exactly its bytes and keeps the list canonical |
| `FreeList.FreeIntoReleases` | 3pp_cnz/ipxe/ipxe_caa/core/malloc.c:450-491 | putting a block that is not free in its place, taken together with whatever it touches on either side, adds exactly its bytes and keeps the list canonical |
| `FreeList.FreeNothing` | 3pp_cnz/ipxe/ipxe_caa/core/malloc.c:450-491 | freeing a block of size zero changes nothing if a free block ends at its address; otherwise it links in an empty block, and the list passes the block check exactly in the first case |
| `FreeList.SplitCanonical` | 3pp_cnz/ipxe/ipxe_caa/core/malloc.c:316-372 | cutting an allocation out of a block leaves a canonical list, whichever remainders are kept |
| `FreeList.SplitBytes` | 3pp_cnz/ipxe/ipxe_caa/core/malloc.c:316-372 | the cut removes exactly the allocated bytes and those of remainders too small to keep |
| `FreeList.AllocThenFreeRestores` | 3pp_cnz/ipxe/ipxe_caa/core/malloc.c:316-372 | freeing what was just allocated restores the identical free list if and only if no remainder was dropped |
| `FreeList.ReleaseOrderIrrelevant` | 3pp_cnz/ipxe/ipxe_caa/core/malloc.c:450-491 | two blocks freed in either order give the same free list |
| `Malloc.RoundUp` | 3pp_cnz/ipxe/ipxe_caa/core/malloc.c:296-310 | sizes are rounded up to the minimum block size; zero exactly for size zero or on overflow |
| `Malloc.RoundDown` | 3pp_cnz/ipxe/ipxe_caa/core/malloc.c:648-653 | populated lengths are rounded down to a multiple of the minimum block size |
| `Malloc.FirstFit` | 3pp_cnz/ipxe/ipxe_caa/core/malloc.c:315-323 | the block taken fits the size, alignment and offset, and no earlier one does |
| `Malloc.AllocationAligned` | 3pp_cnz/ipxe/ipxe_caa/core/malloc.c:311-331 | the address returned is congruent to the offset modulo the alignment, and modulo the minimum block size whatever the alignment |
| `Malloc.LowestCongruent` | 3pp_cnz/ipxe/ipxe_caa/core/malloc.c:311-319 | the skip at the start of a block ends at the first address whose physical address is congruent to the offset modulo both the alignment and the minimum block size; no earlier one is |
| `Malloc.FirstFitLowest` | 3pp_cnz/ipxe/ipxe_caa/core/malloc.c:311-323 | first fit without speaking of blocks: the address chosen is the lowest one placed as requested from which on the rounded size is free, and none is chosen only if there is no such address |
| `Malloc.SeparatedAlloc` | 3pp_cnz/ipxe/ipxe_caa/core/malloc.c:316-372 | allocating keeps live blocks apart from one another and from the free list, inside populated memory |
| `Malloc.SeparatedFree` | 3pp_cnz/ipxe/ipxe_caa/core/malloc.c:450-491 | freeing keeps live blocks apart from one another and from the free list |
| `Malloc.CutLeaksOnlyAtEdges` | 3pp_cnz/ipxe/ipxe_caa/core/malloc.c:335-360 | with an offset that is a multiple of the minimum block size, and any alignment, a leading remainder is dropped only from a block that starts at an edge of populated memory and a trailing one only from a block that ends at an edge |
| `Malloc.OffGridLeaks` | 3pp_cnz/ipxe/ipxe_caa/core/malloc.c:335-360 | with any other offset, a block of two minimum sizes anywhere on the grid loses a remainder to the smallest request |
| `Malloc.ReleaseKeepsEdges` | 3pp_cnz/ipxe/ipxe_caa/core/malloc.c:450-491 | freeing keeps every block boundary on the alignment grid or at an edge |
| `Malloc.LeakInTheMiddle` | 3pp_cnz/ipxe/ipxe_caa/core/malloc.c:335-360 | with an offset that is no multiple of the minimum block size, remainders are dropped in the middle of the heap, so the remark that this happens only at its very start or end fails |
| `HeapState.TookKeepsInv` | 3pp_cnz/ipxe/ipxe_caa/core/malloc.c:316-371 | taking a block keeps the whole heap invariant; the address is new, in range and aligned |
| `HeapState.FreedKeepsInv` | 3pp_cnz/ipxe/ipxe_caa/core/malloc.c:404-499 | freeing a live block keeps the whole heap invariant |
| `HeapState.DiscardedKeepsInv` | 3pp_cnz/ipxe/ipxe_caa/core/malloc.c:242-252 | a cache discarder that frees one cached block keeps the whole heap invariant |
| `HeapState.PopulatedKeepsInv` | 3pp_cnz/ipxe/ipxe_caa/core/malloc.c:648-660 | adding any length of memory outside the pool keeps the whole heap invariant if and only if the length reaches the minimum block size or a free block ends where the memory starts |
| `HeapState.EmptyBlockLinked` | 3pp_cnz/ipxe/ipxe_caa/core/malloc.c:648-660 | given one byte less than the minimum block size, an empty heap links in a block of size zero |
| `HeapState.ReleaseAddsSize` | 3pp_cnz/ipxe/ipxe_caa/core/malloc.c:450-495 | the free byte count goes up by exactly the size freed |
| `HeapState.AllocOutcomeSafe` | 3pp_cnz/ipxe/ipxe_caa/core/malloc.c:279-394 | every allocation, failing or not, and whatever was discarded for it, keeps the invariant; failure means that nothing fits and the cache is empty |
| `HeapState.AllocLowest` | 3pp_cnz/ipxe/ipxe_caa/core/malloc.c:279-394 | every outcome of an allocation is the lowest allocation: cached blocks are given up only while no address placed as requested has enough free bytes, the address returned is the lowest that has, and failure means there is none with the cache empty |
| `HeapState.AllocKeepsLive` | 3pp_cnz/ipxe/ipxe_caa/core/malloc.c:279-394 | an allocation disturbs no live block but cached ones, and adds none but its own |
| `HeapState.AllocSurvive` | 3pp_cnz/ipxe/ipxe_caa/core/malloc.c:279-394 | what was live and not cached is still live after an allocation, unchanged |
| `HeapState.OneOwner` | 3pp_cnz/ipxe/ipxe_caa/core/malloc.c:279-394 | no byte belongs to two live blocks |
| `HeapState.StepKeepsInv` | 3pp_cnz/ipxe/ipxe_caa/core/malloc.c:279-660 | each of populate, allocate, free and discard keeps the heap invariant, populate under the exact condition above |
| `HeapState.RunSafe` | 3pp_cnz/ipxe/ipxe_caa/core/malloc.c:279-660 | after any run of populate, under the exact condition above, allocate, free and discard the heap invariant holds: canonical free list, live blocks apart and inside populated memory, counters exact |
| `HeapState.RunConserves` | 3pp_cnz/ipxe/ipxe_caa/core/malloc.c:279-660 | used plus free memory stays the same over any run without populate |
| `HeapState.RunPeak` | 3pp_cnz/ipxe/ipxe_caa/core/malloc.c:361-365 | after any run the high-water mark is the greatest use of memory reached at any point of it |
| `HeapState.RunLeaksOnlyAtEdges` | 3pp_cnz/ipxe/ipxe_caa/core/malloc.c:335-360 | over any run whose offsets are multiples of the minimum block size, a leading remainder is dropped only from a block that starts at an edge of populated memory and a trailing one only from a block that ends at an edge; no other bytes are dropped |
| `HeapModel.Heap.CheckBlocks` | 3pp_cnz/ipxe/ipxe_caa/core/malloc.c:205-235 | the block check passes exactly for canonical lists |
| `HeapModel.Heap.InsertAndMerge` | 3pp_cnz/ipxe/ipxe_caa/core/malloc.c:450-491 | the loop over signed gaps puts a block of any size, zero included, in its place in the list |
| `HeapModel.Heap.FreeMemblock` | 3pp_cnz/ipxe/ipxe_caa/core/malloc.c:404-499 | null is ignored; otherwise the rounded block is put in its place and the free and used counts change by its size, wrapping |
| `HeapModel.Heap.Release` | 3pp_cnz/ipxe/ipxe_caa/core/malloc.c:404-499 | freeing a live block is the specified transition and keeps the heap valid |
| `HeapModel.Heap.Mpopulate` | 3pp_cnz/ipxe/ipxe_caa/core/malloc.c:648-660 | the region, rounded down, becomes free, and the used count is unchanged although the code goes through a free; with less than the minimum block size the heap stays valid exactly when a free block ends at the address |
| `HeapModel.Heap.SplitBlock` | 3pp_cnz/ipxe/ipxe_caa/core/malloc.c:323-360 | the in-place cut gives the specified split |
| `HeapModel.Heap.TakeBlock` | 3pp_cnz/ipxe/ipxe_caa/core/malloc.c:316-371 | taking the first fit is the specified transition, with the counters |
| `HeapModel.Heap.DiscardCache` | 3pp_cnz/ipxe/ipxe_caa/core/malloc.c:242-252 | the first discarder that can frees something; zero only when the cache is empty |
| `HeapModel.Heap.AllocMemblock` | 3pp_cnz/ipxe/ipxe_caa/core/malloc.c:279-394 | searching, discarding and searching again is a run of discards followed by a first fit or by failure with an empty cache; by HeapState.AllocLowest, the lowest address that serves |
| `HeapModel.Heap.Realloc` | 3pp_cnz/ipxe/ipxe_caa/core/malloc.c:521-572 | the bytes common to both sizes are copied and the old block is freed exactly when the new one exists; a failure changes no contents and costs at most cached blocks |
| `HeapModel.Heap.CopyAndFree` | 3pp_cnz/ipxe/ipxe_caa/core/malloc.c:547-565 | the contents up to the smaller size arrive in the new block and nothing else is written |
| `HeapModel.Heap.Malloc` | 3pp_cnz/ipxe/ipxe_caa/core/malloc.c:583-592 | size zero gives the special pointer, a size that overflows gives null; otherwise a block with its size recorded in front, or null if none serves |
| `HeapModel.Heap.Free` | 3pp_cnz/ipxe/ipxe_caa/core/malloc.c:604-611 | null and the special pointer are ignored; otherwise the block with the recorded size is freed |
| `Iobuf.NextPow2IsPow2` | 3pp_cnz/ipxe/ipxe_caa/core/iobuf.c:67-73 | a length is rounded up to a power of two less than twice as large |
| `Iobuf.NextPow2Minimal` | 3pp_cnz/ipxe/ipxe_caa/core/iobuf.c:67-73 | and to the least such power of two |
| `Iobuf.InlineDescriptorAligned` | 3pp_cnz/ipxe/ipxe_caa/core/iobuf.c:79-95 | a descriptor placed behind the data is aligned |
| `Iobuf.NeverCrosses` | 3pp_cnz/ipxe/ipxe_caa/core/iobuf.c:120-139 | a buffer aligned to its rounded size crosses no boundary of that size |
| `Iobuf.OwnSizeAligned` | 3pp_cnz/ipxe/ipxe_caa/core/iobuf.c:120-139 | the same for the alignment that is asked for |
| `Iobuf.DetachedIsNotAtEnd` | 3pp_cnz/ipxe/ipxe_caa/core/iobuf.c:146-172 | a descriptor allocated on its own never begins where a data block ends |
| `Iobuf.InlineTestExact` | 3pp_cnz/ipxe/ipxe_caa/core/iobuf.c:146-172 | the test of end against the descriptor tells inline descriptors from detached ones exactly |
| `Iobuf.IobPool.AllocIobRaw` | 3pp_cnz/ipxe/ipxe_caa/core/iobuf.c:48-118 | success owns new blocks of exactly the right sizes, aligned as asked, with the descriptor inline exactly when it fits below the alignment boundary; null is returned exactly when the alignment cannot be rounded up or the allocator has no room, and then everything is given back |
| `Iobuf.IobPool.AllocDetached` | 3pp_cnz/ipxe/ipxe_caa/core/iobuf.c:97-110 | buffer and descriptor in blocks of their own; failure of either leaves neither |
| `Iobuf.NoRoomMeans` | 3pp_cnz/ipxe/ipxe_caa/core/iobuf.c:88-108 | no room means that no address placed as requested has enough free bytes, with all cached data given up |
| `Iobuf.IobPool.AllocIob` | 3pp_cnz/ipxe/ipxe_caa/core/iobuf.c:129-139 | the buffer has the length asked for, padded only for an inline descriptor, and crosses no boundary of its rounded size; null exactly when the allocator has no room |
| `Iobuf.IobPool.FreeIob` | 3pp_cnz/ipxe/ipxe_caa/core/iobuf.c:146-172 | exactly the blocks the buffer took are freed, with the sizes they were taken with |
| `Iobuf.BuffersApart` | 3pp_cnz/ipxe/ipxe_caa/core/iobuf.c:48-118 | no byte lies in two buffers |
| `Iobuf.TotalIsBytes` | 3pp_cnz/ipxe/ipxe_caa/core/iobuf.c:258-260 | the lengths of distinct buffers add up to the number of bytes they occupy, all in the pool, so that the sum cannot overflow |
| `Iobuf.IobPool.AppendData` | 3pp_cnz/ipxe/ipxe_caa/core/iobuf.c:270-271 | the data grows by the bytes copied and no other buffer is touched |
| `Iobuf.IobPool.MoveAll` | 3pp_cnz/ipxe/ipxe_caa/core/iobuf.c:267-273 | the data of the listed buffers arrives in order, and exactly they are freed |
| `Iobuf.IobPool.IobConcatenate` | 3pp_cnz/ipxe/ipxe_caa/core/iobuf.c:243-276 | the result holds the joined data, the list is empty and no other buffer is changed, or there is no room for the total length and nothing has changed; a single buffer is returned as it is |
| `Iobuf.IobPool.IobSplit` | 3pp_cnz/ipxe/ipxe_caa/core/iobuf.c:291-306 | the two buffers together hold the old data, the first of them the length asked for, and no other is changed; failure means no room and changes nothing |
| `UriCodec.DigitPosition` | 3pp_cnz/ipxe/ipxe_caa/core/string.c:413-422 | a hexadecimal digit of either case has its position among the sixteen digits as value |
| `UriCodec.HexExactly` | 3pp_cnz/ipxe/ipxe_caa/core/string.c:413-422 | a character counts as a hexadecimal digit exactly when it is one of the sixteen, in either case |
| `UriCodec.DecodePair` | 3pp_cnz/ipxe/ipxe_caa/core/uri.c:62-72 | a percent sign and two digits of either case decode to sixteen times the first plus the second |
| `UriCodec.DecodeOdd` | 3pp_cnz/ipxe/ipxe_caa/core/uri.c:62-72 | every other pair behind a percent sign: a lone digit counts by itself, a space or sign before a digit is skipped, a minus sign negates, a space or sign without one makes a NUL, and anything else leaves the percent sign alone |
| `UriCodec.DecodeLast` | 3pp_cnz/ipxe/ipxe_caa/core/uri.c:62-72 | the same for a single character between a percent sign and the end |
| `UriCodec.DecodePlain` | 3pp_cnz/ipxe/ipxe_caa/core/uri.c:62-76 | every other character, and a percent sign at the end, stand for themselves |
| `UriCodec.EncodedAs` | 3pp_cnz/ipxe/ipxe_caa/core/uri.c:106-224 | what is printed for a character in each field, against a literal table: itself, or a percent sign and its two upper-case digits, which a byte of 128 or more gets six more of |
| `UriCodec.DecodeEncode` | 3pp_cnz/ipxe/ipxe_caa/core/uri.c:53-224 | decoding an encoded field gives the string the code echoes for it, byte by byte |
| `UriCodec.DecodeEncodeExact` | 3pp_cnz/ipxe/ipxe_caa/core/uri.c:53-224 | decoding an encoded field gives the field back if and only if it is seven-bit |
| `UriCodec.DecodeEncodeHighChar` | 3pp_cnz/ipxe/ipxe_caa/core/uri.c:200-224 | a byte of 128 or more is printed as a sign-extended eight-digit number and comes back as seven characters |
| `UriRoundTrip.ParseHasShape` | 3pp_cnz/ipxe/ipxe_caa/core/uri.c:296-446 | whatever is parsed satisfies the shape rules: password only with user, opaque part or path but not both, and so on |
| `UriRoundTrip.HostPortParsed` | 3pp_cnz/ipxe/ipxe_caa/core/uri.c:429-434 | a printed host and port come back if the port does not end in a bracket and, without a port, the host has no colon or ends in a bracket; otherwise a port appears or disappears |
| `UriRoundTrip.PrintedParsed` | 3pp_cnz/ipxe/ipxe_caa/core/uri.c:296-529 | the parsed parts of a printed URI are its encoded parts, except in exactly the two cases named |
| `UriRoundTrip.ParseFormat` | 3pp_cnz/ipxe/ipxe_caa/core/uri.c:296-529 | parsing a printed URI gives back every field if and only if the URI is canonical: laid out as the parser lays URIs out, decoded fields seven-bit, encoded ones visible, no opaque part that looks like a path, host and port distinguishable, no parameter marker in the fragment |
| `UriRoundTrip.ParsedCStrings` | 3pp_cnz/ipxe/ipxe_caa/core/uri.c:296-446 | parsing a C string yields C strings |
| `UriRoundTrip.ReparseStable` | 3pp_cnz/ipxe/ipxe_caa/core/uri.c:296-529 | printing and parsing a parsed URI changes nothing if and only if that URI is canonical |
| `UriRoundTrip.ColonInHostIsLost` | 3pp_cnz/ipxe/ipxe_caa/core/uri.c:106-188 | a host with a colon and no port is printed unescaped and comes back with a port |
| `UriLayout.ParseCuts` | 3pp_cnz/ipxe/ipxe_caa/core/uri.c:296-434 | for every string the raw fields follow the layout rules, and put back together they are the string up to the parameter list |
| `UriLayout.AssembleParses` | 3pp_cnz/ipxe/ipxe_caa/core/uri.c:296-434 | fields that follow the rules are the ones found in the string they make up |
| `UriLayout.ParseUnique` | 3pp_cnz/ipxe/ipxe_caa/core/uri.c:296-434 | parsing is the one way to cut a string up by the rules: it gives these fields if and only if they follow the rules and make up the string |
| `UriLayout.SchemeCharacters` | 3pp_cnz/ipxe/ipxe_caa/core/uri.c:337-343 | a scheme is made of letters, hyphens and underscores |
| `UriLayout.PathPrinted` | 3pp_cnz/ipxe/ipxe_caa/core/uri.c:471-529 | a URI with a path and no encoded path is printed as with the encoding of its path for it, and comes back as that one if and only if that one is canonical |
| `UriBuffer.UriDecode` | 3pp_cnz/ipxe/ipxe_caa/core/uri.c:53-77 | the loop writes the decoded bytes that fit, also when source and destination are the same buffer, and returns the full length |
| `UriBuffer.UriDecodeInplace` | 3pp_cnz/ipxe/ipxe_caa/core/uri.c:84-97 | the string in the buffer becomes its decoding and nothing outside it changes |
| `UriBuffer.UriStruct.constructor` | 3pp_cnz/ipxe/ipxe_caa/core/uri.c:307-317 | the working copy of the string and the space for the second copy of the path |
| `UriBuffer.UriStruct.SplitPort` | 3pp_cnz/ipxe/ipxe_caa/core/uri.c:429-434 | cutting host and port in place gives the specified parts |
| `UriBuffer.UriStruct.SplitAuthority` | 3pp_cnz/ipxe/ipxe_caa/core/uri.c:413-434 | cutting the authority in place gives the specified parts |
| `UriBuffer.UriStruct.ShuffleDown` | 3pp_cnz/ipxe/ipxe_caa/core/uri.c:379-394 | moving the authority down one byte to make room for a terminator keeps both strings |
| `UriBuffer.UriStruct.CopyPath` | 3pp_cnz/ipxe/ipxe_caa/core/uri.c:401-405 | the second copy of the path does not overlap any field |
| `UriBuffer.UriStruct.ParseHierarchical` | 3pp_cnz/ipxe/ipxe_caa/core/uri.c:366-434 | query, authority and path as specified |
| `UriBuffer.UriStruct.ParseScheme` | 3pp_cnz/ipxe/ipxe_caa/core/uri.c:337-364 | scheme, then opaque part or hierarchical part, as specified |
| `UriBuffer.UriStruct.ChopFragment` | 3pp_cnz/ipxe/ipxe_caa/core/uri.c:319-335 | the parameter list and the fragment are cut off as specified |
| `UriBuffer.UriStruct.DecodeAll` | 3pp_cnz/ipxe/ipxe_caa/core/uri.c:436-439 | decoding the fields one after another in place decodes each and disturbs none |
| `UriBuffer.ParseUri` | 3pp_cnz/ipxe/ipxe_caa/core/uri.c:296-446 | the pointers set by cutting and decoding one buffer in place point at exactly the fields of the specification, which UriLayout.ParseUnique and the laws of UriCodec pin down for every string |
| `UriPrinter.UriEncode` | 3pp_cnz/ipxe/ipxe_caa/core/uri.c:200-224 | the buffer receives what fits and the full length is returned |
| `UriPrinter.PiecesAreFormat` | 3pp_cnz/ipxe/ipxe_caa/core/uri.c:471-529 | the pieces printed field by field join to the specified text |
| `UriPrinter.FormatUri` | 3pp_cnz/ipxe/ipxe_caa/core/uri.c:471-529 | a buffer of any size receives the leading part of the text, terminated, and the full length is returned |
| `Fdt.Next` | 3pp_cnz/ipxe/ipxe_caa/core/fdt.c:77-183 | a step that succeeds starts inside the blob and moves the cursor strictly forward |
| `Fdt.Search` | 3pp_cnz/ipxe/ipxe_caa/core/fdt.c:193-343 | the search terminates, on any blob and from any offset, and what it finds is inside the blob |
| `Fdt.StrCmpIs` | 3pp_cnz/ipxe/ipxe_caa/core/fdt.c:223-341 | comparing with a terminated string tells whether it is the name, and reads no further than its end |
| `Fdt.NextNop` | 3pp_cnz/ipxe/ipxe_caa/core/fdt.c:77-183 | on a serialised tree in a registered blob, a filler token is stepped over |
| `Fdt.NextBegin` | 3pp_cnz/ipxe/ipxe_caa/core/fdt.c:77-183 | a node header yields the place of its name and goes one level down |
| `Fdt.NextEnd` | 3pp_cnz/ipxe/ipxe_caa/core/fdt.c:77-183 | an end token goes one level up, or ends the search at the level it began on |
| `Fdt.NextProp` | 3pp_cnz/ipxe/ipxe_caa/core/fdt.c:77-183 | a property yields the places of its name and data, and its length |
| `Fdt.SkipItem` | 3pp_cnz/ipxe/ipxe_caa/core/fdt.c:193-343 | a whole subtree is passed over by a search that wants nothing in it |
| `Fdt.ScanItems` | 3pp_cnz/ipxe/ipxe_caa/core/fdt.c:193-343 | the search finds the first wanted item among the items of one node, or reports that there is none |
| `Fdt.SearchCorrect` | 3pp_cnz/ipxe/ipxe_caa/core/fdt.c:193-343 | on the serialisation of any tree in any registered blob, searching a node considers exactly its own items and reads nothing beyond the blob |
| `Fdt.ChildCorrect` | 3pp_cnz/ipxe/ipxe_caa/core/fdt.c:193-232 | the child found is the first immediate child of that name, at its offset; otherwise not found |
| `Fdt.PropertyCorrect` | 3pp_cnz/ipxe/ipxe_caa/core/fdt.c:312-343 | the bytes found are the data of the first property of that name of the node itself; otherwise not found |
| `FdtLookup.FdtTraverse` | 3pp_cnz/ipxe/ipxe_caa/core/fdt.c:77-183 | one step of the cursor, with the remaining length an unsigned difference, is the specified step, on any blob |
| `FdtLookup.Strcmp` | 3pp_cnz/ipxe/ipxe_caa/core/fdt.c:223-341 | the comparison stops at the first difference |
| `FdtLookup.FdtChild` | 3pp_cnz/ipxe/ipxe_caa/core/fdt.c:193-232 | the loop finds what the specified search finds, and terminates |
| `FdtLookup.FdtProperty` | 3pp_cnz/ipxe/ipxe_caa/core/fdt.c:312-343 | the loop finds the property the specified search finds, and terminates |
| `FdtLookup.RegisterFdt` | 3pp_cnz/ipxe/ipxe_caa/core/fdt.c:410-480 | a header is accepted exactly if both blocks lie in the blob and the structure block is aligned; the strings block is cut to its longest start that ends in a NUL |
| `FdtLookup.FieldsRead` | 3pp_cnz/ipxe/ipxe_caa/core/fdt.c:410-455 | the same in terms of the fields of the header, stored as big-endian numbers: magic, version, extents and alignment |
| `FdtLookup.FdtPath` | 3pp_cnz/ipxe/ipxe_caa/core/fdt.c:241-275 | the path buffer is restored on every exit and the result is iterated child lookup, which FdtLookup.NamesResolved describes by names |
| `FdtLookup.PathCorrect` | 3pp_cnz/ipxe/ipxe_caa/core/fdt.c:241-275 | on the serialisation of any tree in any registered blob, a path lookup walks the tree by components, whatever the path; only slashes are skipped between them |
| `FdtLookup.WalkNames` | 3pp_cnz/ipxe/ipxe_caa/core/fdt.c:241-275 | walking a tree along a path of names, each after any number of slashes, is descending by the first child of each name in turn |
| `FdtLookup.NamesResolved` | 3pp_cnz/ipxe/ipxe_caa/core/fdt.c:241-275 | on the serialisation of any tree in any registered blob, such a path resolves to the node reached by the first child of each name in turn, and is not found exactly when a name is missing |
| `FdtLookup.TrailingSlashNeverResolves` | 3pp_cnz/ipxe/ipxe_caa/core/fdt.c:241-275 | a path that ends in a slash, the lone slash included, never resolves in a tree whose nodes all have names |
| `FdtBounds.GuardedStep` | 3pp_cnz/ipxe/ipxe_caa/core/fdt.c:77-183 | one step stays in the structure block exactly when a step that checks against the recorded length of the block does not give up, and then the two agree |
| `FdtBounds.NamesEnd` | 3pp_cnz/ipxe/ipxe_caa/core/fdt.c:455-460 | a name that starts in its block is compared without leaving the blob |
| `FdtBounds.BoundsExact` | 3pp_cnz/ipxe/ipxe_caa/core/fdt.c:193-343 | in any registered blob, a search stays in the structure and strings blocks if and only if the search with those checks does not give up; then they find the same and nothing beyond the blob is read |
| `FdtBounds.TreeStaysInside` | 3pp_cnz/ipxe/ipxe_caa/core/fdt.c:193-343 | a search of any node of a serialised tree in a registered blob stays in the structure and strings blocks, whatever else is in the blob |
| `FdtBounds.NopsLeaveTheBlob` | 3pp_cnz/ipxe/ipxe_caa/core/fdt.c:92-98 | for every registered layout there are contents, filler tokens to the end, on which every search is led beyond the blob |
| `FdtBounds.NopBlobLeaves` | 3pp_cnz/ipxe/ipxe_caa/core/fdt.c:92-98 | a registered blob of 44 bytes, one filler token behind the header, is read beyond its end |
| `FdtBounds.NameAtEndLeaves` | 3pp_cnz/ipxe/ipxe_caa/core/fdt.c:150-156 | a property name offset equal to the length of the strings block is accepted, and comparing the name leaves a blob that ends with that block |
| `Interface.Plumbing.RefIncrement` | 3pp_cnz/ipxe/ipxe_caa/core/refcnt.c:42-49 | a missing counter is ignored |
| `Interface.Plumbing.RefDecrement` | 3pp_cnz/ipxe/ipxe_caa/core/refcnt.c:61-91 | the object is freed exactly when the count first goes below zero, never again after that |
| `Interface.GetCounted` | 3pp_cnz/ipxe/ipxe_caa/core/interface.c:139-142 | taking a reference on a live object keeps counts exact |
| `Interface.PutCounted` | 3pp_cnz/ipxe/ipxe_caa/core/interface.c:149-151 | giving up a reference keeps counts exact and frees the object exactly if it was the last |
| `Interface.MoveCounted` | 3pp_cnz/ipxe/ipxe_caa/core/interface.c:287-290 | moving a plug to a temporary interface keeps counts exact |
| `Interface.LogCounted` | 3pp_cnz/ipxe/ipxe_caa/core/interface.c:249-266 | a close method runs only on an object that has not been freed |
| `Interface.AllFreedOnce` | 3pp_cnz/ipxe/ipxe_caa/core/refcnt.c:61-91 | with everything unplugged and let go, every object has been freed, once |
| `Interface.Plumbing.IntfGet` | 3pp_cnz/ipxe/ipxe_caa/core/interface.c:139-142 | the holder count goes up and the object is live |
| `Interface.Plumbing.IntfPut` | 3pp_cnz/ipxe/ipxe_caa/core/interface.c:149-151 | the holder count goes down; freed exactly if that was the last reference |
| `Interface.Plumbing.IntfPlug` | 3pp_cnz/ipxe/ipxe_caa/core/interface.c:83-95 | the null interface is left alone; otherwise the plug moves, the new destination stays live, and at most the old destination is freed |
| `Interface.Plumbing.IntfPlugPlug` | 3pp_cnz/ipxe/ipxe_caa/core/interface.c:107-110 | both interfaces point at each other |
| `Interface.Plumbing.IntfUnplug` | 3pp_cnz/ipxe/ipxe_caa/core/interface.c:117-122 | the plug is gone and at most the old destination is freed |
| `Interface.Plumbing.IntfInsert` | 3pp_cnz/ipxe/ipxe_caa/core/interface.c:401-409 | the filter is in between, and holders are as before; the old destination is not freed meanwhile |
| `Interface.Plumbing.IntfClose` | 3pp_cnz/ipxe/ipxe_caa/core/interface.c:249-266 | the destination is told unless null or blocked; at most one close call is not paid for by a plug; an interface that no close method acts on keeps its blocking, and its plug unless the default for lack of a close method unplugs it; every interface told is the destination or has lost a plug |
| `Interface.Plumbing.Invoke` | 3pp_cnz/ipxe/ipxe_caa/core/interface.c:249-266 | the object of a close method stays unfreed until the method returns; the same frame |
| `Interface.Plumbing.RunActions` | 3pp_cnz/ipxe/ipxe_caa/core/interface.c:249-266 | a close method that shuts down and restarts interfaces, in any graph, leaves them unplugged, with the same frame for those that no close method acts on |
| `Interface.Plumbing.RunAction` | 3pp_cnz/ipxe/ipxe_caa/core/interface.c:278-358 | the same for one of them: blocked after a shutdown unless some close method restarts it, unblocked after a restart |
| `Interface.Plumbing.IntfShutdown` | 3pp_cnz/ipxe/ipxe_caa/core/interface.c:278-297 | terminates in any graph with the interface unplugged, and blocked unless some close method restarts it; every other interface that no close method acts on keeps its blocking, and its plug unless the default for lack of a close method unplugs it; every close call in the cascade used up a plug; the destination is told first; blocked interfaces stay blocked and are not told |
| `Interface.Plumbing.IntfRestart` | 3pp_cnz/ipxe/ipxe_caa/core/interface.c:343-358 | as shutdown, with the same frame, and the interface is unblocked at the end |
| `Interface.Plumbing.IntfsShutdown` | 3pp_cnz/ipxe/ipxe_caa/core/interface.c:305-318 | all listed interfaces end up unplugged, and blocked and never told unless some close method restarts them; the same frame for all others |
| `Interface.Plumbing.IntfsRestart` | 3pp_cnz/ipxe/ipxe_caa/core/interface.c:366-378 | the same, and all are unblocked at the end |
| `Base64.SameBits` | 3pp_cnz/ipxe/ipxe_caa/core/base64.c:51-81 | the digits of an encoding hold the bits of the raw data in order |
| `Base64.AlphabetIs` | 3pp_cnz/ipxe/ipxe_caa/core/base64.c:39-40 | the digits are those of RFC 4648, section 4 |
| `Base64.EncodeGood` | 3pp_cnz/ipxe/ipxe_caa/core/base64.c:51-81 | an encoding is a multiple of four characters, digits first and at most two pads |
| `Base64.DecodeEncode` | 3pp_cnz/ipxe/ipxe_caa/core/base64.c:51-157 | decoding an encoding gives the raw data back, whatever white space has been put in |
| `Base64.EncodeDecode` | 3pp_cnz/ipxe/ipxe_caa/core/base64.c:51-157 | encoding a decoded text gives the text without its white space if and only if the last digit holds no bits beyond the last byte |
| `Base64.NextIsDigit` | 3pp_cnz/ipxe/ipxe_caa/core/base64.c:61-70 | the shifts and masks of the encoder pick out six consecutive bits |
| `Base64.AddDigit` | 3pp_cnz/ipxe/ipxe_caa/core/base64.c:137-145 | one more digit adds exactly its bits to the bytes it overlaps |
| `Base64.BadPrefix` | 3pp_cnz/ipxe/ipxe_caa/core/base64.c:107-133 | what makes a prefix unacceptable makes the whole text unacceptable |
| `Base64.CountBits` | 3pp_cnz/ipxe/ipxe_caa/core/base64.c:148-156 | the bit count is a whole number of bytes exactly for a multiple of four characters, although pads may take it below zero and long texts may wrap it |
| `Base64.Base64Encode` | 3pp_cnz/ipxe/ipxe_caa/core/base64.c:51-81 | for fewer than 2^29 bytes, a buffer of any size holds the leading part of the encoding, terminated; the full length is returned |
| `Base64.Pad` | 3pp_cnz/ipxe/ipxe_caa/core/base64.c:72-75 | pads are added up to a multiple of four characters, also when the bit counter wraps |
| `Base64.StoreDigit` | 3pp_cnz/ipxe/ipxe_caa/core/base64.c:137-145 | the two or-assignments add the bits of one digit to the buffer |
| `Base64.Base64Decode` | 3pp_cnz/ipxe/ipxe_caa/core/base64.c:91-157 | rejected exactly when malformed, whatever the length; the length returned is that of the data modulo 2^29, and below that a buffer of any size holds the leading bytes |
| `AesWrap.UnStepStep` | 3pp_cnz/ipxe/ipxe_caa/crypto/aes_wrap.c:56-120 | an unwrapping step undoes the wrapping step with the same number |
| `AesWrap.StepUnStep` | 3pp_cnz/ipxe/ipxe_caa/crypto/aes_wrap.c:56-120 | and the other way round |
| `AesWrap.UnwrapWrap` | 3pp_cnz/ipxe/ipxe_caa/crypto/aes_wrap.c:38-124 | for every cipher, block count and plaintext, unwrapping recovers the plaintext and the check value |
| `AesWrap.UnwrapAccepts` | 3pp_cnz/ipxe/ipxe_caa/crypto/aes_wrap.c:85-124 | the check value is intact if and only if the input is the wrapping of something, and then of what is returned |
| `AesWrap.CounterAgrees` | 3pp_cnz/ipxe/ipxe_caa/crypto/aes_wrap.c:63 | the one-byte counter equals the 64-bit counter at every step if and only if there are at most 42 blocks |
| `AesWrap.Counter64Value` | 3pp_cnz/ipxe/ipxe_caa/crypto/aes_wrap.c:63 | the eight bytes of the full counter read as a big-endian number are the step number |
| `AesWrap.WrapIs3394` | 3pp_cnz/ipxe/ipxe_caa/crypto/aes_wrap.c:38-71 | with the full counter the algorithm is key wrap as section 2.2.1 of RFC 3394 states it, on registers and with the step number added as a 64-bit number |
| `AesWrap.WrapIsStandard` | 3pp_cnz/ipxe/ipxe_caa/crypto/aes_wrap.c:38-71 | up to 42 blocks the result is that of section 2.2.1 of RFC 3394, stated in its own terms |
| `AesWrap.WrapDiffers` | 3pp_cnz/ipxe/ipxe_caa/crypto/aes_wrap.c:63 | with a cipher that changes nothing the result differs from that of RFC 3394 for every number of blocks beyond 42 and all data |
| `AesWrap.WrapStandardExactly` | 3pp_cnz/ipxe/ipxe_caa/crypto/aes_wrap.c:38-71 | the result is that of RFC 3394, in its own terms, for every cipher and all data if and only if there are at most 42 blocks |
| `AesWrap.AesWrap` | 3pp_cnz/ipxe/ipxe_caa/crypto/aes_wrap.c:38-71 | with any overlap, what is wrapped is the source as it stands after the check value has been written; nothing outside the destination changes |
| `AesWrap.WrapRight` | 3pp_cnz/ipxe/ipxe_caa/crypto/aes_wrap.c:35-53 | wrapping is right if and only if the check value overwrites no source byte that differs from it |
| `AesWrap.WrapInPlace` | 3pp_cnz/ipxe/ipxe_caa/crypto/aes_wrap.c:35-36 | wrapping in place is right if and only if there are no blocks or the first block equals the check value |
| `AesWrap.ZeroesInPlace` | 3pp_cnz/ipxe/ipxe_caa/crypto/aes_wrap.c:35-36 | eight zero bytes wrapped in place come out wrong, for every cipher |
| `AesWrap.AesUnwrap` | 3pp_cnz/ipxe/ipxe_caa/crypto/aes_wrap.c:85-124 | with any overlap, the destination receives the unwrapped blocks and the status says whether the check value was intact |
| `AesWrap.CheckIv` | 3pp_cnz/ipxe/ipxe_caa/crypto/aes_wrap.c:117-121 | the check value is compared byte by byte |
| `Sanboot.OnOneList` | 3pp_cnz/ipxe/ipxe_caa/core/sanboot.c:191-254 | every path is on exactly one of the two lists and the active path is an opened one |
| `Sanboot.WithoutKeepsOrder` | 3pp_cnz/ipxe/ipxe_caa/core/sanboot.c:191-254 | a path moved from one list to the other leaves the rest in order |
| `Sanboot.CloseInv` | 3pp_cnz/ipxe/ipxe_caa/core/sanboot.c:233-254 | closing a path keeps that |
| `Sanboot.OpenedInv` | 3pp_cnz/ipxe/ipxe_caa/core/sanboot.c:191-225 | opening a path keeps that |
| `Sanboot.StepKeepsInv` | 3pp_cnz/ipxe/ipxe_caa/core/sanboot.c:294-318 | the path process keeps that if and only if it is not a closed path that is found ready while none is active |
| `Sanboot.HandleAllInv` | 3pp_cnz/ipxe/ipxe_caa/core/sanboot.c:136-318 | any sequence of events keeps that, notifications coming for open paths only |
| `Sanboot.OneEvent` | 3pp_cnz/ipxe/ipxe_caa/core/sanboot.c:294-318 | while no path is active, one event cannot close a path with status zero |
| `Sanboot.OnePath` | 3pp_cnz/ipxe/ipxe_caa/core/sanboot.c:387-404 | nor can any number of events on a device with one path |
| `Sanboot.BatchBound` | 3pp_cnz/ipxe/ipxe_caa/core/sanboot.c:387-404 | for all devices and events, every closed path keeps an error status while no path is active if and only if no more than two events are handled at once |
| `Sanboot.LosingEnvironment` | 3pp_cnz/ipxe/ipxe_caa/core/sanboot.c:387-404 | for every number of paths from two on, a step in which two become available and all are lost again is reported as success with no path active |
| `Sanboot.WaitRight` | 3pp_cnz/ipxe/ipxe_caa/core/sanboot.c:387-410 | with one path, or with no more than two events at once, the wait ends with status zero exactly if a path is active |
| `Sanboot.ReopenRight` | 3pp_cnz/ipxe/ipxe_caa/core/sanboot.c:365-414 | the wait ends with status zero exactly if a path is active, for every order of the paths and whatever happens, if and only if there is at most one path |
| `Sanboot.SanDevice.SanpathOpen` | 3pp_cnz/ipxe/ipxe_caa/core/sanboot.c:191-225 | the path moves to the end of the opened list, or nothing changes |
| `Sanboot.SanDevice.SanpathClose` | 3pp_cnz/ipxe/ipxe_caa/core/sanboot.c:233-254 | the path moves to the end of the closed list; if it was active, the command is closed too |
| `Sanboot.SanDevice.SanpathStep` | 3pp_cnz/ipxe/ipxe_caa/core/sanboot.c:294-318 | the first path to be ready becomes active and any later one is closed, under the exact condition above for the lists to stay right |
| `Sanboot.SanDevice.Step` | 3pp_cnz/ipxe/ipxe_caa/core/sanboot.c:387-388 | one call of step() handles one batch of events |
| `Sanboot.SanDevice.SandevRestart` | 3pp_cnz/ipxe/ipxe_caa/core/sanboot.c:341-355 | everything is closed, the open paths in order and each with the reason given |
| `Sanboot.SanDevice.OpenAll` | 3pp_cnz/ipxe/ipxe_caa/core/sanboot.c:377-382 | the closed paths are opened in order, up to the first that cannot be connected |
| `Sanboot.SanDevice.SandevReopen` | 3pp_cnz/ipxe/ipxe_caa/core/sanboot.c:365-414 | if every path can be connected the result and the active path are those of the wait, otherwise the status of the first that cannot, with all closed; with one path, or with no more than two events at once, zero if and only if a path is active |
| `Sanboot.SanDevice.Attempt` | 3pp_cnz/ipxe/ipxe_caa/core/sanboot.c:514-549 | a command is begun only with a path active, except on a device with several paths and after more than two events at once; it is done exactly with status zero, and any failure is reported with the status of its cause |
| `Sanboot.SanDevice.SandevCommand` | 3pp_cnz/ipxe/ipxe_caa/core/sanboot.c:500-557 | a command is begun at most retries plus one times, and so is reopening on a single path, whatever happens; zero is returned exactly if the last attempt was done, and otherwise its status, after exactly retries plus one attempts that count; no timer is left running |
| `Sanboot.TransferComplete` | 3pp_cnz/ipxe/ipxe_caa/core/sanboot.c:587-625 | the fragments follow on without gap or overlap, none too long, and cover the transfer if and only if its length in blocks fits in 32 bits |
| `Sanboot.FragsFull` | 3pp_cnz/ipxe/ipxe_caa/core/sanboot.c:600-622 | every fragment but the last is as long as the device takes |
| `Sanboot.SanDevice.Transfer` | 3pp_cnz/ipxe/ipxe_caa/core/sanboot.c:600-622 | the loop over the fragments, for any starting block and length |
| `Sanboot.SanDevice.SandevRw` | 3pp_cnz/ipxe/ipxe_caa/core/sanboot.c:587-625 | the commands completed are the fragments in order, all of them on success and a proper prefix otherwise; a device that takes zero blocks at once never completes a transfer |
| `Linebuf.ReceiveLines` | 3pp_cnz/ipxe/ipxe_caa/core/linebuf.c:45-143 | a caller that hands over pieces until they are consumed and takes each line that is ready gets the stream split at line feeds with one trailing carriage return removed, however it was cut up |
| `Linebuf.Receive` | 3pp_cnz/ipxe/ipxe_caa/core/linebuf.c:91-143 | the same for one piece, after any earlier input |
| `Linebuf.StoredFinished` | 3pp_cnz/ipxe/ipxe_caa/core/linebuf.c:120-137 | overwriting the line feed, and a carriage return before it, ends the stored line |
| `Linebuf.StoredUnfinished` | 3pp_cnz/ipxe/ipxe_caa/core/linebuf.c:110-118 | data without a line feed is appended |
| `Linebuf.LineBuffer.LineBuffer` | 3pp_cnz/ipxe/ipxe_caa/core/linebuf.c:91-143 | consumes up to and including the first line feed; a NUL in that part is refused; otherwise it fails exactly for lack of memory; failure changes nothing |
| `Linebuf.LineBuffer.BufferedLine` | 3pp_cnz/ipxe/ipxe_caa/core/linebuf.c:45-58 | gives the line completed by the last call, if it completed one |
| `Linebuf.LineBuffer.EmptyLineBuffer` | 3pp_cnz/ipxe/ipxe_caa/core/linebuf.c:65-71 | nothing is left of the earlier input |
| `Exec.SplitCommand` | 3pp_cnz/ipxe/ipxe_caa/core/exec.c:121-144 | counting and filling agree: the count is that of the words of the line, filling gives their positions, counting changes nothing |
| `Exec.TokenStrings` | 3pp_cnz/ipxe/ipxe_caa/core/exec.c:121-144 | once the spaces are NULs, each position holds exactly its word |
| `Exec.CommandTerminator` | 3pp_cnz/ipxe/ipxe_caa/core/exec.c:183-210 | stops at the first operator or comment |
| `Exec.StoppedStays` | 3pp_cnz/ipxe/ipxe_caa/core/exec.c:329-331 | once stopped, the rest of the line has no effect |
| `Exec.ExpandTokens` | 3pp_cnz/ipxe/ipxe_caa/core/exec.c:248-265 | all tokens are expanded or none |
| `Exec.Execute` | 3pp_cnz/ipxe/ipxe_caa/core/exec.c:306-341 | the loop has the effect and the status of short-circuit evaluation of the left-nested expression |
| `Exec.System` | 3pp_cnz/ipxe/ipxe_caa/core/exec.c:287-347 | the same for the whole line: tokens, operators, comments, expansion failure and stops |
| `Exec.ParseCommand` | 3pp_cnz/ipxe/ipxe_caa/core/exec.c:183-341 | tokens without operator or comment are one command |
| `Exec.ParseMore` | 3pp_cnz/ipxe/ipxe_caa/core/exec.c:183-341 | an operator and a command behind any line joins the command to it |
| `Exec.RunsNext` | 3pp_cnz/ipxe/ipxe_caa/core/exec.c:183-341 | behind any line, a command after a double ampersand is run on its success, after a double bar on its failure, after a semicolon always, and never after a stop |
| `Exec.CommentIgnored` | 3pp_cnz/ipxe/ipxe_caa/core/exec.c:183-210 | a token that begins with a hash sign, and all behind it, is ignored |
| `Exec.ConcatArgs` | 3pp_cnz/ipxe/ipxe_caa/core/exec.c:358-383 | the string allocated has the computed length and holds the arguments with one space between each two, the rest of it NULs |
| `Exec.SplitSpaced` | 3pp_cnz/ipxe/ipxe_caa/core/exec.c:121-383 | splitting joined arguments gives them back if and only if each is non-empty and free of white space |
| `Gdbstub.HexDigitBack` | 3pp_cnz/ipxe/ipxe_caa/core/gdbstub.c:71-78 | a hexadecimal digit reads back as the low four bits |
| `Gdbstub.DigitsAre` | 3pp_cnz/ipxe/ipxe_caa/core/gdbstub.c:71-78 | digits are printed in lower case and read in either, against the literal digits |
| `Gdbstub.HexBack` | 3pp_cnz/ipxe/ipxe_caa/core/gdbstub.c:85-135 | a buffer printed in hexadecimal reads back as itself |
| `Gdbstub.FromHexBuf` | 3pp_cnz/ipxe/ipxe_caa/core/gdbstub.c:85-109 | the aligned two- and four-byte forms store what the byte loop stores |
| `Gdbstub.ToHexBuf` | 3pp_cnz/ipxe/ipxe_caa/core/gdbstub.c:111-135 | the aligned two- and four-byte forms print what the byte loop prints |
| `Gdbstub.Checksum` | 3pp_cnz/ipxe/ipxe_caa/core/gdbstub.c:137-143 | the sum of the bytes modulo 256 |
| `Gdbstub.PacketParsed` | 3pp_cnz/ipxe/ipxe_caa/core/gdbstub.c:312-352 | whatever comes between a dollar and a hash sign, the packet is accepted exactly when the digits are the checksum of what is kept of the payload begun last |
| `Gdbstub.FrameParsed` | 3pp_cnz/ipxe/ipxe_caa/core/gdbstub.c:145-352 | a frame is accepted if and only if the payload bytes that did not fit add up to zero; a payload that fits always is, unchanged |
| `Gdbstub.LongFrameAccepted` | 3pp_cnz/ipxe/ipxe_caa/core/gdbstub.c:325-328 | a payload too long for the buffer is accepted cut short: the remark that the checksum will fail does not always hold |
| `Gdbstub.Stub.TxPacket` | 3pp_cnz/ipxe/ipxe_caa/core/gdbstub.c:145-153 | the frame of the payload is sent and the payload kept for sending it again |
| `Gdbstub.Stub.Parse` | 3pp_cnz/ipxe/ipxe_caa/core/gdbstub.c:312-366 | one character has the specified effect: state, payload, acknowledgement, reply or the same frame again |
| `Gdbstub.Stub.CheckPacket` | 3pp_cnz/ipxe/ipxe_caa/core/gdbstub.c:337-352 | a plus and the reply, or a minus |
| `Profile.Rescaled` | 3pp_cnz/ipxe/ipxe_caa/core/profile.c:130-141 | shifting the mean down to coarser units keeps it between the least and the greatest sample |
| `Profile.Moved` | 3pp_cnz/ipxe/ipxe_caa/core/profile.c:147-150 | moving the mean by a truncated share of the distance keeps it between, with the new sample counted in |
| `Profile.NearRescaled` | 3pp_cnz/ipxe/ipxe_caa/core/profile.c:130-141 | and costs at most one unit of accuracy for each sample |
| `Profile.NearUpdated` | 3pp_cnz/ipxe/ipxe_caa/core/profile.c:147-150 | one more sample costs at most one unit of accuracy for each sample before it |
| `Profile.Rounded` | 3pp_cnz/ipxe/ipxe_caa/core/profile.c:241-247 | rounding to the nearest unit keeps the mean between the least and the greatest sample |
| `Profile.NearRounded` | 3pp_cnz/ipxe/ipxe_caa/core/profile.c:241-247 | and costs at most one half |
| `Profile.SameSide` | 3pp_cnz/ipxe/ipxe_caa/core/profile.c:147-185 | the two distances never lie on opposite sides, also as high halves, so that their product is positive unless one is zero |
| `Profile.SumUp` | 3pp_cnz/ipxe/ipxe_caa/core/profile.c:198-217 | scaling the variance down to a larger product and adding loses less than one scaled bit of the product and does not overflow 64 bits |
| `Profile.SumDown` | 3pp_cnz/ipxe/ipxe_caa/core/profile.c:204-217 | the same for scaling the product down |
| `Profile.Carried` | 3pp_cnz/ipxe/ipxe_caa/core/profile.c:219-226 | halving when the top bit is reached makes the variance fit in 63 bits again |
| `Profile.Profiler.UpdateMean` | 3pp_cnz/ipxe/ipxe_caa/core/profile.c:110-172 | the scale makes room for the sample; the mean moves by the truncated share; over any samples it lies between the least and the greatest, and within one unit for each sample but the first of the exact mean; the distances handed on are the high halves of those before and after |
| `Profile.Profiler.UpdateVariance` | 3pp_cnz/ipxe/ipxe_caa/core/profile.c:174-232 | for samples below 2^31 and products that sum to less than 2^63, the product of the distances is added up to what the shifts lose; nothing overflows and the variance is never more than the exact sum of the products |
| `Profile.Profiler.ProfileUpdate` | 3pp_cnz/ipxe/ipxe_caa/core/profile.c:110-233 | both, while every sample fits in 31 bits: the variance grows by the product of the two distances unless one is zero |
| `Profile.Profiler.ProfileMean` | 3pp_cnz/ipxe/ipxe_caa/core/profile.c:241-247 | while every sample fits in 62 bits, the mean reported is the scaled mean rounded to nearest, ties upwards; it lies between the least and the greatest sample and differs from the exact mean by at most one half and a unit for each sample but the first |
| `Profile.ShiftsExact` | 3pp_cnz/ipxe/ipxe_caa/core/profile.c:85-105 | the shift that rounds the mean is positive if and only if every sample is below 2^62, and the shift that scales a product is not negative if and only if every sample is below 2^31 |
| `Profile.ShiftsWrap` | 3pp_cnz/ipxe/ipxe_caa/core/profile.c:85-105 | 2^62 and 2^31 are samples on which they fail |
| `Profile.Profiler.VarianceFits` | 3pp_cnz/ipxe/ipxe_caa/core/profile.c:174-232 | a bound on the number and the greatest of the samples under which the variance stays in range |
| `Time.LeapIsGregorian` | 3pp_cnz/ipxe/ipxe_caa/core/time.c:60-71 | the leap year test counted from 1900 is the Gregorian rule |
| `Time.LeapCount` | 3pp_cnz/ipxe/ipxe_caa/core/time.c:79-87 | the closed formula goes up by one exactly at leap years |
| `Time.NextDayIsNext` | 3pp_cnz/ipxe/ipxe_caa/core/time.c:117-145 | from 1900 on, consecutive calendar days have consecutive day numbers |
| `Time.DateOfDays` | 3pp_cnz/ipxe/ipxe_caa/core/time.c:117-145 | the date that comes n days after the first of January 1900 has the day number n less 25567 |
| `Time.LaterDates` | 3pp_cnz/ipxe/ipxe_caa/core/time.c:117-145 | every valid date is the date of its day number |
| `Time.Weekday` | 3pp_cnz/ipxe/ipxe_caa/core/time.c:96-105 | the weekday is four plus the day number, modulo seven |
| `Time.IsPosix` | 3pp_cnz/ipxe/ipxe_caa/core/time.c:32-39 | from 1970 on, the value is that of the formula in section 4.15 of POSIX:2008 |
| `Time.SecondsUnique` | 3pp_cnz/ipxe/ipxe_caa/core/time.c:117-145 | two times of day on valid dates with the same value are the same |
| `Time.Tm.Mktime` | 3pp_cnz/ipxe/ipxe_caa/core/time.c:117-145 | the seconds, with weekday and day of the year filled in |
| `Isqrt.Fits` | 3pp_cnz/ipxe/ipxe_caa/core/isqrt.c:46-54 | no intermediate sum leaves a 64-bit word |
| `Isqrt.Isqrt` | 3pp_cnz/ipxe/ipxe_caa/core/isqrt.c:40-56 | for every 64-bit value, the largest number whose square is not above it |
| `Random.RawFits` | 3pp_cnz/ipxe/ipxe_caa/core/random.c:40-41 | no intermediate value leaves 32 bits |
| `Random.RawCongruent` | 3pp_cnz/ipxe/ipxe_caa/core/random.c:40-43 | the update is multiplication by 40014 modulo 2147483563, for every 32-bit seed |
| `Random.NonZero` | 3pp_cnz/ipxe/ipxe_caa/core/random.c:40-43 | zero comes only from a multiple of the modulus |
| `Random.RunInRange` | 3pp_cnz/ipxe/ipxe_caa/core/random.c:31-45 | from any proper seed the whole run stays between 1 and 2147483562 |
| `Random.Generator.Srandom` | 3pp_cnz/ipxe/ipxe_caa/core/random.c:20-24 | the seed is taken as a 32-bit signed number, with 4 for zero |
| `Random.Generator.Random` | 3pp_cnz/ipxe/ipxe_caa/core/random.c:31-45 | one step of the generator from the seed, or from the clock taken as seed if it is zero |
| `CLib.SpaceCodes` | 3pp_cnz/ipxe/ipxe_caa/core/ctype.c:41-53 | white space is codes 9 to 13 and 32 |
| `CLib.CDivTruncates` | 3pp_cnz/ipxe/ipxe_caa/core/profile.c:147-150 | division of signed numbers truncates towards zero |

## Left out

- HeapState.RunSafe: all heap addresses lie below 2^63, so that the difference of two pointers has the sign it should have.
- HeapModel.Heap.Mpopulate: the address must lie outside the pool even if the length is zero, as the code writes a block header there.
- HeapModel.Heap.DiscardCache: a discarder frees one cached block of its own per call; what else a discarder might do is not modelled.
- Fdt.Next: what the code makes of bytes beyond the blob is not followed; such a step, or one that wraps the 32-bit offset, only ends with the mark OUTSIDE.
- Interface.Plumbing.RunActions: a close method is a finite list of shutdowns and restarts; one that plugs interfaces anew or drops a reference of its own is not modelled.
- Interface.Plumbing.IntfClose: pass-through to an underlying interface is not modelled.
- Interface.Plumbing.IntfPlugPlug: the caller must make sure that the first plug does not free the object that the second plugs into, as the source does not.
- Base64.Base64Encode: input of 2^29 bytes or more, where the 32-bit bit counter never reaches the length and the loop does not end, is excluded.
- Sanboot.HandleAllInv: notifications of an available path come for open paths only, because closing a path stops its process and unplugs its interface; a peer that keeps its own plug could still notify, and Sanboot.StepKeepsInv says when that matters.
- Sanboot.SanDevice.SandevCommand: a command begun with no path active, which takes several paths and more than two events at once, is reported as such and not followed.
- Profile.Profiler.UpdateVariance: samples of 2^31 or more, for which the shift that scales the product goes below zero, and exact sums of 2^63 or more, for which the scale leaves the word, are excluded.
- Profile.Profiler.ProfileMean: samples of 2^62 or more, for which the code shifts by a negative amount, are excluded.
- Time.Tm.Mktime: dates before 1900 and years so late that a 32-bit day count overflows are not considered.
- Receive buffers mapped for DMA.
- Relative URI resolution, copying of URIs, and the TFTP and PXE constructors; the parameter list that a URI refers to is cut off but not looked up.
- Device tree aliases, string properties and MAC addresses.
- The built-in commands and the expansion of settings.
- GDB register and memory commands.
- SAN device description tables, the ISO9660 probe and registration.
- The variance and the standard deviation as reported, and the hexadecimal debugging output of the profiler.
- Valgrind annotations and debugging output.
- The console, settings, drivers and network protocols, and the scripts and programs outside the iPXE tree.
