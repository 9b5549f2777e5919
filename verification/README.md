# A verified model of the kernel's decompressor, page allocator and integer printing

The model covers four parts of the kernel and its C library (`Substrings` and `Wrappers` are shared helpers):

* **The DEFLATE decoder of `kernel/include/kernel/ssfn.h`** (RFC 1951). `BitOps`, `BitReversal` and
  `BitStream` give C's unsigned operations and the bit stream. `CanonicalCode` defines the canonical Huffman
  code of section 3.2.2 of RFC 1951. `FastTable` and `HuffmanTable` hold the table builder, `Inflater` the
  decoder as a class with the fields of `_ssfn__zbuf`. `Deflate` is an independent reference decoder over bit
  positions; every parsing method is proved to compute exactly it, failure included. `TokenCoding`,
  `HeaderCoding` and `StreamCoding` describe what an encoder writes and show, in both directions, that the
  reference decoder accepts exactly that. `ZlibDecode` puts the two together. `FormatLaws`, `Tables` and
  `FixedCodes` state the reference decoder's numbers once more, as RFC 1951 gives them and without its
  definitions, and `KnownStreams` proves what two given streams decode to.
* **The page allocator of `kernel/arch/x86_64/mem/pmm.c` and `pmm.h`.** `PageAllocator` is the class over the
  bitmap words, `PageRuns` its meaning on page flags together with the theorems about every run of
  allocations and frees, `AllocatorRuns` carries out such runs on the class, down to the bytes behind the returned
  addresses, `MemoryMap` is the boot memory map and the carving of the bitmap.
* **The integer and string half of `libc/stdio/printf.c`, and `libc/stdlib/itoa.c`.** `Printf` holds the
  scratch buffer, padding and clipped output, `FormatString` the meaning of a format, `DirectiveText` how a
  directive is written, `Vsnprintf` the interpreter loop, `PrintedIntegers` what the printed text means as a
  number, `DirectiveRoundTrip` the way from a format to that number. `IntegerLaws` and `PrintedDirectives` say,
  part by part and without the model's definitions, what every directive prints, and `StarFields` what a `*` stands
  for. `Itoa` is the second integer printer, `Numerals` the digits that both produce.
* **The glyph-table scan of `ssfn.h`** (`GlyphTable`), which the console renderer runs for every character.

Conventions. Unsigned words are natural numbers; a wrap-around is written out as a remainder. Bits of a
stream are numbered from the first bit of the first byte, so the state of the bit reader is one position
(`Inflater.BitPos`). An outcome of the reference decoder is `Done`, `Corrupt` (the source returns 0) or
`Undefined` (the source's result does not depend on its input alone; see below). Some definitions recurse a few
steps before they reach their body. That changes no value; it keeps the verifier from unfolding them, and the
lemma named after the definition with `Steps` or `Unfold` shows the body.

Four facts about the code are worth knowing.

* The bitmap can have too few bits. It has one for every page exactly when `(total / 64) % 4096 != 0` or
  `total % 64 == 0` (`MemoryMap.EnoughBits`), and initialisation writes only inside it exactly when there are 64
  pages or more and no usable page left after the carving lies behind its last bit (`MemoryMap.ReachesExactly`).
  One page more than a gigabyte is too much (`MemoryMap.OnePageTooMany`).
* The bitmap has a bit behind the last page only when `(total / 64) % 4096 != 0` (`MemoryMap.SpareBit`). Without
  it, some search looks at bits behind the map unless a page from the last searched one on is page 0 or not usable
  (`PageAllocator.Pmm.Initialize`, `PageRuns.FenceExactly`); one gigabyte of memory from address 0 ends in such a
  state, and `kalloc(0x40000)` then leaves the map (`PageAllocator.Pmm.InitializeGigabyte`).
* A negative number loses its sign exactly when its digits and zeros fill the 32 characters of the scratch buffer:
  from base 8 on, when `-` is not set and the precision is 32 or more, or zero padding meets a width of 33 or more
  (`PrintedIntegers.ReadPrinted`). `%.32d` of -5 reads as 5 (`DirectiveRoundTrip.LostSign`).
* `itoa` prints a negative number in a base other than 10 with characters below `'0'`, although the comment above
  that code says it is treated as unsigned (`Itoa.PrintersAgree`).

## Model

| member | source | states |
|---|---|---|
| BitReversal.BitReverse16IsRev | kernel/include/kernel/ssfn.h:475-482 | the four masked exchanges send bit k to bit 15 - k, for every argument |
| BitReversal.BitReverseIsRev | kernel/include/kernel/ssfn.h:484-487 | the reversal of a codeword of any length up to 16 |
| BitReversal.RevInjective | kernel/include/kernel/ssfn.h:484-487 | reversal is one to one, so no two codewords share a fast-table pattern |
| BitStream.ByteBits | kernel/include/kernel/ssfn.h:548-559 | the bits of a byte string are its bytes, least significant bit first (section 3.1.1 of RFC 1951) |
| BitStream.BufferFill | kernel/include/kernel/ssfn.h:553-559 | or-ing the next byte above the buffered bits extends the window of the stream by eight bits |
| BitStream.BufferMask | kernel/include/kernel/ssfn.h:561-569 | masking the buffer gives the next n bits of the stream |
| BitStream.BufferReverse | kernel/include/kernel/ssfn.h:574-574 | reversing the buffer gives the next 16 bits with the first one most significant |
| BitStream.RevMsb | kernel/include/kernel/ssfn.h:523-523 | a codeword stands in the stream exactly when its reversal is the little-endian window |
| CanonicalCode.KraftSumIsEnd | kernel/include/kernel/ssfn.h:502-513 | the running code after length 15 is the Kraft sum, counted symbol by symbol |
| CanonicalCode.KraftRoom | kernel/include/kernel/ssfn.h:508-509 | with Kraft's inequality no length runs out of codewords |
| CanonicalCode.PrefixFree | kernel/include/kernel/ssfn.h:503-513 | no assigned codeword is a prefix of another one |
| CanonicalCode.UniqueMatch | kernel/include/kernel/ssfn.h:503-513 | at most one symbol's codeword starts at any place of any stream |
| CanonicalCode.WindowOrder | kernel/include/kernel/ssfn.h:575-577 | a window below the codes' end at one length is below their start at every longer one |
| CanonicalCode.WindowMatch | kernel/include/kernel/ssfn.h:579-582 | a window among the codewords of one length is the codeword of a symbol of that rank |
| CanonicalCode.NoMatch | kernel/include/kernel/ssfn.h:578-578 | a window past the end at every length starts no codeword |
| CanonicalCode.PlaceInjective | kernel/include/kernel/ssfn.h:518-521 | different symbols get different places in the size and value columns |
| FastTable.FastEntryExact | kernel/include/kernel/ssfn.h:515-531 | entry j is (s << 9 \| i) exactly when i's codeword has s <= 9 bits and its reversal is the low s bits of j, and 0 exactly when there is none |
| FastTable.FastMatchUnique | kernel/include/kernel/ssfn.h:524-527 | no strided fill overwrites another symbol's entry |
| FastTable.FastLookup | kernel/include/kernel/ssfn.h:589-595 | a non-zero entry names the symbol whose codeword comes next, a zero one says that the codeword is longer than 9 bits |
| HuffmanTable.Huffman.Build | kernel/include/kernel/ssfn.h:489-533 | succeeds exactly when the lengths satisfy Kraft's inequality, and then the table decodes their canonical code |
| HuffmanTable.Huffman.CountSizes | kernel/include/kernel/ssfn.h:493-498 | how many symbols have each length, with length 0 not counted |
| HuffmanTable.Huffman.AssignLength | kernel/include/kernel/ssfn.h:504-511 | the columns of one length, refused exactly when its codewords overrun |
| HuffmanTable.Huffman.AssignCodes | kernel/include/kernel/ssfn.h:502-514 | first codes, first symbols and left-aligned ends of every length, or failure exactly when Kraft's inequality fails |
| HuffmanTable.Huffman.Fill | kernel/include/kernel/ssfn.h:515-531 | every coded symbol stands at its place, and every fast entry is the one its index calls for |
| HuffmanTable.Huffman.FillSymbol | kernel/include/kernel/ssfn.h:516-530 | one more symbol entered in the size, value and fast columns |
| HuffmanTable.Huffman.FillFast | kernel/include/kernel/ssfn.h:522-528 | the strided loop writes exactly the indices whose low bits are the reversed codeword |
| Inflater.Inflater.constructor | kernel/include/kernel/ssfn.h:535-546 | a decoder at the start of its input with no output |
| Inflater.Inflater.Get8 | kernel/include/kernel/ssfn.h:548-551 | the next input byte |
| Inflater.Inflater.FillBits | kernel/include/kernel/ssfn.h:553-559 | refilling leaves more than 24 bits buffered and does not move the position in the stream; only the bytes that are fetched have to be there |
| Inflater.Inflater.Receive | kernel/include/kernel/ssfn.h:561-569 | the next n bits of the stream, which are then consumed |
| Inflater.Inflater.DecodeSlowpath | kernel/include/kernel/ssfn.h:571-583 | the symbol of the codeword longer than 9 bits that comes next and exactly its bits consumed, or -1 exactly when there is none |
| Inflater.Inflater.CodeLength | kernel/include/kernel/ssfn.h:575-577 | the first length whose codes reach beyond the window; the search ends by 16 |
| Inflater.Inflater.HuffmanDecode | kernel/include/kernel/ssfn.h:585-597 | both levels together find the symbol whose codeword comes next and consume exactly that codeword, or find none exactly when no codeword comes next |
| Inflater.Inflater.DecodeSymbol | kernel/include/kernel/ssfn.h:585-597 | with 32 bits of input ahead this is the reference decoding of one symbol |
| Deflate.SymbolMeaning | kernel/include/kernel/ssfn.h:585-597 | a symbol is decoded exactly when its codeword stands at the position, and none exactly when no codeword does |
| Tables.LengthEntry | kernel/include/kernel/ssfn.h:618-619 | the tables hold the bases and extra bits of section 3.2.5 of RFC 1951 |
| Tables.DistEntry | kernel/include/kernel/ssfn.h:620-621 | the same for distances |
| Tables.EveryLength | kernel/include/kernel/ssfn.h:618-619 | every length from 3 to 258 has a symbol and extra bits |
| Tables.EveryDistance | kernel/include/kernel/ssfn.h:620-621 | every distance from 1 to 32768 has a symbol and extra bits |
| Tables.LengthLadder | kernel/include/kernel/ssfn.h:618-619 | symbol 257 begins at length 3, every next base lies one range of extra bits higher, four symbols to each number of extra bits, and symbol 285 is 258 alone |
| Tables.DistLadder | kernel/include/kernel/ssfn.h:620-621 | the same for distances from 1 on, two symbols to each number of extra bits |
| Lz77.CopyBackIsCopy | kernel/include/kernel/ssfn.h:648-650 | a back reference repeats, byte by byte, what stands dist bytes earlier, overlap included |
| Lz77.CopyUnique | kernel/include/kernel/ssfn.h:648-650 | that property determines the output |
| Inflater.Inflater.CopyMatch | kernel/include/kernel/ssfn.h:648-650 | both copy loops, the one-byte shortcut included, produce the back reference |
| Inflater.Inflater.ReadMatch | kernel/include/kernel/ssfn.h:636-642 | length and distance of a match, or failure exactly when no distance code follows |
| Inflater.Inflater.ParseMatch | kernel/include/kernel/ssfn.h:636-650 | the match carried out, or refused when it is corrupt, reaches back before the output or does not fit |
| Inflater.Inflater.ParseItem | kernel/include/kernel/ssfn.h:626-651 | one literal or match appended or the end of the block, refused exactly when it is corrupt or does not fit |
| Inflater.Inflater.ParseHuffmanBlock | kernel/include/kernel/ssfn.h:623-653 | the output and position of the reference decoder, and false exactly when that says corrupt |
| TokenCoding.BlockRoundTrip | kernel/include/kernel/ssfn.h:623-653 | for all codes and all literal and match tokens written with them, decoding gives the LZ77 expansion and stops right behind the end code |
| TokenCoding.BlockSound | kernel/include/kernel/ssfn.h:623-653 | whatever a block decodes to is the expansion of tokens whose words stand there |
| TokenCoding.EveryCopy | kernel/include/kernel/ssfn.h:636-642 | every length and distance of the format can be written as a token |
| FormatLaws.SymbolNumbers | kernel/include/kernel/ssfn.h:623-642 | symbols below 256 are bytes, 256 ends the block, 257 + k begins a match whose length and distance are base plus extra bits, in that order |
| Inflater.Inflater.Align | kernel/include/kernel/ssfn.h:705-706 | moves to the next byte boundary |
| Inflater.Inflater.DrainBuffer | kernel/include/kernel/ssfn.h:707-712 | moves the buffered whole bytes, at most four, into the header in stream order |
| Inflater.Inflater.ReadStoredHeader | kernel/include/kernel/ssfn.h:707-716 | LEN and NLEN from the aligned stream, with no data byte taken |
| Inflater.Inflater.CopyInput | kernel/include/kernel/ssfn.h:720-723 | appends exactly the bytes of the stream |
| Inflater.Inflater.ParseUncompressedBlock | kernel/include/kernel/ssfn.h:701-725 | the reference decoding of a stored block, NLEN check and room check included |
| StreamCoding.StoredComplete | kernel/include/kernel/ssfn.h:701-725 | decoding any stored data of up to 65535 bytes appends exactly it, whatever the padding bits |
| StreamCoding.StoredSound | kernel/include/kernel/ssfn.h:701-725 | an accepted stored block is padding, LEN, its complement and LEN bytes, and those are what is appended |
| FormatLaws.StoredLengths | kernel/include/kernel/ssfn.h:701-725 | an accepted stored block has, from the next byte boundary on, the two bytes of LEN, low one first, their complements, and LEN bytes of data |
| Inflater.Inflater.ReadSizes | kernel/include/kernel/ssfn.h:668-672 | the code length code's lengths, put to their symbols in zigzag order |
| Inflater.Inflater.ReceiveRun | kernel/include/kernel/ssfn.h:683-689 | the repeat count that belongs to symbol 16, 17 or 18 |
| Inflater.Inflater.SetRun | kernel/include/kernel/ssfn.h:691-691 | the run is appended to the lengths before it |
| Inflater.Inflater.ReadRun | kernel/include/kernel/ssfn.h:676-693 | one code with the lengths it stands for, or failure exactly when the reference fails there |
| Inflater.Inflater.ReadLengths | kernel/include/kernel/ssfn.h:675-695 | the run-length decoding, with every write inside the array, and failure exactly when the reference fails |
| Inflater.Inflater.ExpandRun | kernel/include/kernel/ssfn.h:682-692 | one run behind the lengths so far, refused exactly when there is nothing to repeat or it is too long |
| Inflater.Inflater.ReadCodeLengths | kernel/include/kernel/ssfn.h:668-695 | the code length code and, by it, all code lengths |
| Inflater.Inflater.ReceiveCounts | kernel/include/kernel/ssfn.h:663-666 | HLIT, HDIST and HCLEN |
| Inflater.Inflater.ComputeHuffmanCodes | kernel/include/kernel/ssfn.h:655-699 | both tables built from the header's codes, or false exactly when the header is corrupt |
| HeaderCoding.LengthsComplete | kernel/include/kernel/ssfn.h:675-695 | for every list of runs, decoding gives their expansion: 16 repeats the last length, 17 and 18 repeat zero |
| HeaderCoding.LengthsSound | kernel/include/kernel/ssfn.h:675-695 | accepted lengths are exactly the expansion of runs whose words stand there |
| HeaderCoding.SizesComplete | kernel/include/kernel/ssfn.h:668-672 | three bits for each symbol in zigzag order, the others 0 |
| HeaderCoding.HeaderComplete | kernel/include/kernel/ssfn.h:655-699 | decoding undoes encoding of every dynamic header |
| HeaderCoding.HeaderSound | kernel/include/kernel/ssfn.h:655-699 | an accepted header is the encoding of one, and gives the codes that one describes |
| FormatLaws.HeaderCounts | kernel/include/kernel/ssfn.h:663-666 | five, five and four bits, counted from 257, 1 and 4 |
| FormatLaws.CodeLengthSizes | kernel/include/kernel/ssfn.h:657-672 | symbol by symbol: the three bits at its place in the order 16, 17, 18, 0, 8, 7, 9, ... of section 3.2.7, or 0 behind the last one read |
| FormatLaws.LengthCodePlaces | kernel/include/kernel/ssfn.h:657-672 | the same of what an encoder writes, with the place as a formula of the symbol |
| FormatLaws.RepeatsLast | kernel/include/kernel/ssfn.h:682-692 | symbol 16 repeats the last length 3 to 6 times by two extra bits, and is refused exactly when there is none or the run is too long |
| FormatLaws.RunsOfZeros | kernel/include/kernel/ssfn.h:682-692 | symbol 17 stands for 3 to 10 zeros by three extra bits, 18 for 11 to 138 by seven, refused exactly when they are too many |
| FormatLaws.HeaderSplit | kernel/include/kernel/ssfn.h:663-698 | the first HLIT lengths go to the literal/length code, the HDIST behind them to the distance code |
| Inflater.Inflater.InitDefaults | kernel/include/kernel/ssfn.h:727-737 | the fixed code lengths of section 3.2.6 of RFC 1951 |
| FixedCodes.FixedCodesAreComplete | kernel/include/kernel/ssfn.h:727-737 | both fixed codes use up the whole code space, so their tables are always built |
| FixedCodes.FixedCodewords | kernel/include/kernel/ssfn.h:727-737 | the codewords of the table in section 3.2.6 of RFC 1951: 8 bits from 00110000 on, 9 from 110010000, 7 from 0000000, 8 from 11000000 |
| FixedCodes.FixedDistanceCodewords | kernel/include/kernel/ssfn.h:727-737 | distance symbol d is d in five bits |
| Inflater.Inflater.BuildFixedCodes | kernel/include/kernel/ssfn.h:748-750 | both tables decode the fixed codes, and building them never fails |
| Inflater.Inflater.ParseBlock | kernel/include/kernel/ssfn.h:744-755 | the block kinds 0 to 3, as the reference decodes them |
| Inflater.Inflater.ParseAnyBlock | kernel/include/kernel/ssfn.h:744-756 | final flag, kind and body of one block |
| FormatLaws.BlockKinds | kernel/include/kernel/ssfn.h:744-755 | the first bit is the final flag; the next two, low one first, mean stored, fixed codes, dynamic codes or an error |
| Inflater.Inflater.ParseZlib | kernel/include/kernel/ssfn.h:739-760 | the whole stream: the reference decoder's output and position, and 0 exactly when that says corrupt |
| StreamCoding.StreamRoundTrip | kernel/include/kernel/ssfn.h:739-760 | for every list of stored, fixed and dynamic blocks, decoding what they are written as gives what they expand to and stops right behind |
| StreamCoding.StreamSound | kernel/include/kernel/ssfn.h:739-760 | every accepted stream is the encoding of some blocks, and the output is their expansion |
| KnownStreams.StoredStream | kernel/include/kernel/ssfn.h:739-760 | the bytes 01 02 00 FD FF 48 69 decode to "Hi" in 56 bits, whatever follows |
| KnownStreams.FixedStream | kernel/include/kernel/ssfn.h:739-760 | the bytes 73 04 02 00 decode to "AAAA" in 30 bits, a literal and a match of length 3 |
| ZlibDecode.Decode | kernel/include/kernel/ssfn.h:762-771 | the real decoder on bytes: whatever blocks the input is the compressed form of, their expansion is the output, and success means there are such blocks |
| PageAllocator.Pmm.constructor | kernel/arch/x86_64/mem/pmm.c:25-32 | the state before initialisation |
| PageAllocator.Pmm.Check | kernel/include/kernel/mem/pmm.h:30-45 | the flag of any page of the map; the 32-bit row loses nothing |
| PageAllocator.Pmm.Use | kernel/include/kernel/mem/pmm.h:49-51 | sets the flag of one page and no other |
| PageAllocator.Pmm.Release | kernel/include/kernel/mem/pmm.h:53-55 | clears the flag of one page and no other |
| PageAllocator.Pmm.CountMemory | kernel/arch/x86_64/mem/pmm.c:39-54 | lowest and highest usable address and the pages between them |
| MemoryMap.SpanExact | kernel/arch/x86_64/mem/pmm.c:39-54 | the pages counted reach exactly from the least base of a usable entry to the greatest end of one |
| MemoryMap.AlignUp | kernel/include/kernel/macros.h:19-19 | the mask expression rounds up to a multiple of 4096 |
| MemoryMap.SpareBit | kernel/arch/x86_64/mem/pmm.c:58-59 | the map has a bit behind the last page exactly when the rounding added rows |
| MemoryMap.EnoughBits | kernel/arch/x86_64/mem/pmm.c:58-59 | the map has a bit for every page of the span exactly when the rounding added rows or the pages fill the last row |
| MemoryMap.CarvedKeeps | kernel/arch/x86_64/mem/pmm.c:70-72 | after trimming, usable addresses are the old ones outside the carved range, still aligned and disjoint |
| PageAllocator.Pmm.PlaceBitmap | kernel/arch/x86_64/mem/pmm.c:59-83 | every page used and the first fitting entry trimmed, or failure exactly when none fits |
| MemoryMap.BitmapOverrun | kernel/arch/x86_64/mem/pmm.c:64-72 | the carved bytes never cover the bitmap, and when the entry is longer, a page inside the bitmap stays in the memory map as usable |
| MemoryMap.FreeEntry | kernel/arch/x86_64/mem/pmm.c:88-95 | freeing an entry clears exactly its pages, which were all still used, and the free pages fit in what the counter holds, whenever the entries end inside the map |
| MemoryMap.MappedExactly | kernel/arch/x86_64/mem/pmm.c:88-95 | every entry that is freed ends inside the map exactly when no page behind the map's last bit is usable |
| MemoryMap.ReachesExactly | kernel/arch/x86_64/mem/pmm.c:58-98 | initialisation writes to bits of the map only, exactly when there are 64 pages or more and no page left usable after the carving lies behind the last bit; enough bits for the span are enough |
| MemoryMap.OnePageTooMany | kernel/arch/x86_64/mem/pmm.c:58-95 | 0x40001 pages from address 0, all usable, get 0x40000 bits: freeing the entry writes behind the map |
| MemoryMap.CarvedInTime | kernel/arch/x86_64/mem/pmm.c:58-95 | 0x80001 pages with 0x80000 bits where the carving takes the page that has none: nothing is written behind the map |
| PageAllocator.Pmm.FreeUsable | kernel/arch/x86_64/mem/pmm.c:88-95 | exactly the pages of usable entries are free, and free plus used pages are the total, with no wrap-around, whenever the entries end inside the map |
| PageAllocator.Pmm.ReservePageZero | kernel/arch/x86_64/mem/pmm.c:98-98 | page 0 leaves the free pages without being counted as used, and the searches are fenced exactly as the trimmed memory map says |
| PageAllocator.Pmm.Initialize | kernel/arch/x86_64/mem/pmm.c:34-98 | for every memory map that initialisation does not overrun: a page is free exactly when it is not page 0 and lies in a usable entry after the carve-out; conservation holds from the start; every search is fenced exactly when some page from the last searched one to the end of the map is page 0 or not usable, and always with a spare bit |
| PageRuns.SearchLeast | kernel/arch/x86_64/mem/pmm.c:171-190 | the search finds the least fitting index, and nothing exactly when there is none or n is 0 |
| PageRuns.LookAheadStays | kernel/arch/x86_64/mem/pmm.c:177-180 | every look-ahead stays inside the map exactly when a used bit stands at or behind the last searched page |
| PageRuns.FenceContains | kernel/arch/x86_64/mem/pmm.c:177-180 | with a fence every search for any number of pages stays inside the map |
| PageRuns.FenceExactly | kernel/arch/x86_64/mem/pmm.c:171-190 | with page 0 reserved, a fence is exactly what keeps the search for every number of pages inside the map |
| PageRuns.UnfencedLeaves | kernel/arch/x86_64/mem/pmm.c:171-190 | without a fence, every search for as many pages as there are bits, or more, examines a bit behind the map |
| PageAllocator.Pmm.InitializeGigabyte | kernel/arch/x86_64/mem/pmm.c:34-98 | one gigabyte of memory from address 0 is initialised to an unfenced map, where the search for 0x40000 pages examines a bit behind the map |
| PageAllocator.Pmm.FindFirstFreePageRange | kernel/arch/x86_64/mem/pmm.c:171-190 | the search's result as an address, NULL exactly for none |
| PageAllocator.Pmm.Kalloc | kernel/arch/x86_64/mem/pmm.c:147-168 | new state and returned address are those of the allocation step |
| PageAllocator.Pmm.Kfree | kernel/arch/x86_64/mem/pmm.c:244-252 | the new state is that of the free step, for the page at that address |
| PageAllocator.Pmm.PointerIndex | kernel/arch/x86_64/mem/pmm.c:245-245 | freeing finds the page an allocation returned, whatever wraps around in between |
| PageRuns.AllocVerdict | kernel/arch/x86_64/mem/pmm.c:147-168 | an allocation fails exactly when no n > 0 neighbouring pages are free from a searched index; the counter test refuses only when no page is free |
| PageRuns.SinglePage | kernel/arch/x86_64/mem/pmm.c:147-168 | one page is refused exactly when every free page lies at or behind the lowered page total |
| PageRuns.FreePageRefused | kernel/arch/x86_64/mem/pmm.c:74-74 | a state with a free page and used pages below the total in which one page is refused |
| PageRuns.AllocFree | kernel/arch/x86_64/mem/pmm.c:147-168 | freeing what was just allocated restores map and counter |
| PageRuns.RunSafe | kernel/arch/x86_64/mem/pmm.c:147-168 | over every run, live blocks are disjoint and in pages free at the start, and a page is used exactly when it was so at the start or a live block has it |
| PageRuns.AllRuns | kernel/arch/x86_64/mem/pmm.c:244-252 | over every run, conservation and the fence hold, no live block has page 0, and with nothing live the state is the initial one |
| AllocatorRuns.CarryOut | kernel/arch/x86_64/mem/pmm.c:147-252 | any sequence of allocations and frees, carried out by kalloc and by kfree on the addresses kalloc returned, goes through the states of the runs above |
| AllocatorRuns.BootAndAllocate | kernel/arch/x86_64/mem/pmm.c:34-168 | after initialisation from any such memory map, each of the 4096 n bytes from a returned address on, less the hhdm offset, lies in a usable entry of that map and off the carved range |
| AllocatorRuns.BootAndCarryOut | kernel/arch/x86_64/mem/pmm.c:34-252 | from the boot memory map through any allocations and frees: live blocks are disjoint and lie in usable entries off page 0 and off the carved range, both as pages and as the bytes behind the returned addresses, and a page of the map is used exactly when it is none of those or a live block has it |
| Numerals.EvalDigits | libc/stdio/printf.c:293-297 | the digits, reversed, evaluate back to the value in every base from 2 to 36 |
| Numerals.DigitsFit | libc/stdio/printf.c:297-297 | 32 characters hold every 64-bit value from base 8 on and every 32-bit value in base 2 |
| Printf.PutPut | libc/stdio/printf.c:134-139 | clipped writes behind one another are one clipped write |
| Printf.OutBuffer | libc/stdio/printf.c:134-139 | writes below maxlen only |
| Printf.OutRev | libc/stdio/printf.c:200-224 | spaces, the reversed scratch buffer, spaces |
| Printf.NtoaFormat | libc/stdio/printf.c:228-278 | zeros, prefix, sign and padding, each within the 32 characters |
| Printf.AppendHash | libc/stdio/printf.c:244-262 | the '#' prefix and the digits it takes off again |
| Printf.DigitLoop | libc/stdio/printf.c:293-297 | the digits of the value, as many as fit |
| Printf.NtoaLong | libc/stdio/printf.c:282-327 | the text of one integer, for every flag, width and precision |
| PrintedIntegers.IntegerParts | libc/stdio/printf.c:200-302 | spaces, then sign, prefix, zeros and digits as far as the scratch buffer has room for them, then spaces, and how many of each, for every flag, width and precision |
| PrintedIntegers.IntegerWidth | libc/stdio/printf.c:200-302 | the length for every flag, width and precision; with room for the sign and no '#' it is the larger of the width and sign plus digits or precision, with the precision ignored under '-' |
| PrintedIntegers.ReadPrinted | libc/stdio/printf.c:228-302 | without '#', reading the text gives back sign and value exactly when the digits fit and the number is not negative or there is room for its sign; from base 8 on there is room exactly when '-' is set, or the precision is at most 31 and a zero-padded width at most 32 |
| PrintedIntegers.HashKeepsValue | libc/stdio/printf.c:244-262 | '#' keeps the value of the digits exactly when it takes off padding zeros only, and that is a matter of precision, width and the number of digits |
| PrintedIntegers.DirectiveReads | libc/stdio/printf.c:722-754 | for every integer directive without '#', reading the text gives back the argument at its type exactly under the same condition |
| IntegerLaws.DigitLetters | libc/stdio/printf.c:293-297 | digit d is the d-th of 0 to 9 and the letters, in the case asked for, and stands for d |
| IntegerLaws.DigitsLaw | libc/stdio/printf.c:282-302 | the digits are the value's numeral without leading zeros in the right case, in base 2 that of its low 32 bits, and nothing for 0 with a precision |
| IntegerLaws.IntegerLaw | libc/stdio/printf.c:200-302 | every part of the text of an integer from value, sign, base, precision, width and flags alone: leading and trailing spaces, sign, prefix, zeros, and what '#' cuts off, each up to the 32 characters |
| FormatString.EvaluateFlag | libc/stdio/printf.c:604-612 | one flag character |
| FormatString.ParseFlags | libc/stdio/printf.c:602-613 | each flag is set exactly when its character occurs in the run |
| FormatString.OccursMeaning | libc/stdio/printf.c:602-613 | what occurring in the run means |
| FormatString.Atoi | libc/stdio/printf.c:189-196 | the decimal value of the longest run of digits, modulo 2^32 |
| FormatString.AtoiUndoesPrint | libc/stdio/printf.c:189-196 | reading back a printed 32-bit value gives that value and stops at the first other character |
| DirectiveText.FlagsRead | libc/stdio/printf.c:602-613 | any string of flag characters sets exactly the flags that occur in it |
| DirectiveText.NumberRead | libc/stdio/printf.c:189-196 | a decimal numeral standing anywhere in the format is read as its value |
| DirectiveText.FieldsRead | libc/stdio/printf.c:602-681 | writing flags, width, precision and length and reading them back, at any place of any format, gives the same flags, width and precision and stops at the conversion |
| DirectiveRoundTrip.FormatReads | libc/stdio/printf.c:587-757 | wherever an integer directive without '#', with any flags, width, precision and length, stands in a format, it prints its argument and the format goes on behind it; reading the text gives the argument back exactly when digits and sign fit |
| DirectiveRoundTrip.LostSign | libc/stdio/printf.c:231-274 | "%.32d" of -5 prints thirty-one zeros and a 5, and reads as 5 |
| PrintedDirectives.FieldsWritten | libc/stdio/printf.c:602-681 | the characters of the fields: flags among "-+ 0#", width and precision as decimal numerals, and the length letters h, hh, l, ll, t, j, z |
| PrintedDirectives.IntegerPrints | libc/stdio/printf.c:683-757 | wherever a written integer directive stands in a format: the argument modulo 2^8, 2^16, 2^32 or 2^64 as its length says, signed for d and i, in base 10, 16, 8 or 2, with every part of the text determined by flags, width and precision |
| PrintedDirectives.StringPrints | libc/stdio/printf.c:797-821 | wherever "%s" with any fields stands in a format: spaces, the string or its first precision characters, spaces; in front unless '-' is set, up to the width |
| PrintedDirectives.CharacterPrints | libc/stdio/printf.c:777-795 | the same of "%c" and the low byte of its argument |
| PrintedDirectives.PointerPrints | libc/stdio/printf.c:823-839 | the same of "%p": base 16 in upper case, filled with zeros to 16 characters |
| PrintedDirectives.OrdinaryPrints | libc/stdio/printf.c:841-849 | "%%" prints one '%', and any other ordinary character behind a '%' prints itself |
| PrintedDirectives.TextPrints | libc/stdio/printf.c:588-595 | a format without '%' prints itself |
| StarFields.StarWidth | libc/stdio/printf.c:615-630 | a '*' for the width reads like the absolute value of its argument written there, with a '-' more for a negative one |
| StarFields.StarPrecision | libc/stdio/printf.c:632-645 | a '*' for the precision reads like its argument written there, or 0 for a negative one |
| Vsnprintf.EvaluateWidth | libc/stdio/printf.c:615-630 | the width field, with a negative argument meaning '-' |
| Vsnprintf.EvaluatePrecision | libc/stdio/printf.c:632-645 | the precision field, with a negative argument meaning 0 |
| Vsnprintf.EvaluateLength | libc/stdio/printf.c:647-681 | the length field |
| Vsnprintf.ConvertInteger | libc/stdio/printf.c:685-757 | base, flags and argument type of the seven integer conversions |
| Vsnprintf.PutChar | libc/stdio/printf.c:777-795 | one padded character |
| Vsnprintf.StrnlenS | libc/stdio/printf.c:172-177 | the number of characters in front of the terminator, but at most maxsize |
| Vsnprintf.PutString | libc/stdio/printf.c:797-821 | the string up to its terminator and its precision, padded |
| Vsnprintf.Convert | libc/stdio/printf.c:683-850 | any conversion, and how many arguments it takes |
| Vsnprintf.VsnprintfLoop | libc/stdio/printf.c:587-851 | the text of the format up to its terminator, clipped to the buffer; its length does not depend on the count |
| Vsnprintf.Snprintf | libc/stdio/printf.c:853-858 | the first min(length, count - 1) characters, a terminator, every other cell unchanged, nothing when count is 0 or there is no buffer; the result is the length of the whole text |
| Itoa.Reverse | libc/stdlib/itoa.c:7-18 | the first length characters in reverse order, the others unchanged |
| Itoa.EmitDigits | libc/stdlib/itoa.c:38-42 | the digits under C's truncating division, least significant first |
| Itoa.Itoa | libc/stdlib/itoa.c:20-53 | the terminated text of the value, with nothing behind it touched |
| Itoa.PrintersAgree | libc/stdlib/itoa.c:20-53 | itoa gives the text of %lld, %llo or %llx exactly when the value is not negative or the base is 10 |
| Itoa.MinusOne | libc/stdlib/itoa.c:39-40 | -1 in base 16 prints as '/', which is no numeral |
| GlyphTable.Step | kernel/include/kernel/ssfn.h:386-392 | one cell by its bytes: how many code points it spans, whether it is a record, and where the next cell starts |
| GlyphTable.RecordParts | kernel/include/kernel/ssfn.h:389-391 | a record is exactly six header bytes, the wide bit and the fragment count among them, and that many fragments of five bytes each, or of six when the wide bit is set |
| GlyphTable.Find | kernel/include/kernel/ssfn.h:385-394 | for every well-formed table, the record that the table assigns to the code point, or none exactly when it assigns none |
| GlyphTable.FindForPutc | kernel/include/kernel/ssfn.h:1485-1490 | the second copy of the scan finds the same |
| GlyphTable.FindGlyph | kernel/include/kernel/ssfn.h:385-394 | on the encoded table of any map of glyphs made of such parts, the scan returns the glyph of every code point that has one, and nothing for the others |
| GlyphTable.TableAssigns | kernel/include/kernel/ssfn.h:386-392 | the cells that spell a map of glyphs are well-formed, cover every code point, and assign exactly the glyphs of the map |

## Left out

- `_ssfn__zexpand`, `realloc` and the gzip wrapper: memory provision. The output is an array of fixed size that is known to be large enough or is refused; where the source would first try to grow it, the model returns 0, as the source does when growing fails.
- Inflater.Inflater.ParseMatch: refuses a match that does not fit without growing the output first.
- Inflater.Inflater.ParseItem: refuses a literal or match that does not fit without growing the output first.
- Inflater.Inflater.ParseHuffmanBlock: does not grow the output during a block.
- Inflater.Inflater.ParseUncompressedBlock: refuses a block that does not fit without growing the output first.
- Inflater.Inflater.ParseZlib: does not grow the output between blocks.
- ZlibDecode.Decode: the output has a fixed size from the start, where the source starts with 8 bytes and grows them once.
- Inflater.Inflater.DecodeSymbol: requires 32 bits of input from the position on, and the reference decoder is `Undefined` without them, because the source reads ahead by up to four bytes past what it consumes. `HuffmanDecode` itself requires only the bytes it fetches.
- Inflater.Inflater.ReadMatch: does not cover distance symbols 30 and 31, for which the source's tables hold no distance and the copy would read the byte it is about to write; section 3.2.6 of RFC 1951 says that they never occur. Length symbols 286 and 287 stand for length 0 as in the source's table.
- PageAllocator.Pmm.PlaceBitmap: the bitmap is an array of its own, so writes to it do not reach the pages it overlaps (`MemoryMap.BitmapOverrun`), and it has at most 2^32 rows, which a 32-bit row number reaches.
- PageAllocator.Pmm.Initialize: requires a page-aligned, disjoint memory map with a usable entry below 0xffffffff, at most 2^32 rows, and a bitmap that initialisation does not overrun (`MemoryMap.BitmapReaches`; `ReachesExactly` says when). What an overrun writes to is not modelled.
- PageAllocator.Pmm.FindFirstFreePageRange: requires that the search stays inside the map, as it does behind a fence (`PageRuns.FenceContains`); what a search reads behind the map is not modelled.
- PageAllocator.Pmm.Kfree: requires that the pages freed lie inside the map, as the source does of its callers. The theorems over runs free live blocks only.
- AllocatorRuns.CarryOut: requires that no page but page 0 has the address NULL, which would read as a failure; addresses may wrap around otherwise.
- AllocatorRuns.BootAndCarryOut: requires in addition a memory map whose searches are fenced, as `Pmm.Initialize` says.
- PrintedIntegers.ReadPrinted: excludes '#', whose effect on the digits is `HashKeepsValue`.
- PrintedIntegers.DirectiveReads: excludes '#' on octal, hexadecimal and binary directives, whose prefix the reader does not know.
- DirectiveRoundTrip.FormatReads: excludes the same, and width and precision taken from arguments, which `StarFields.StarWidth` and `StarPrecision` cover.
- PrintedDirectives.StringPrints: gives the length for strings of fewer than 2^32 characters; a longer one is counted modulo 2^32, as in the source.
- PrintedDirectives.IntegerPrints: excludes the least `int` or `long`, whose negation C leaves undefined.
- Vsnprintf.Convert: does not cover floating-point conversions, arguments that are missing or of the wrong kind, and negation of the least `int` or `long`, which C leaves undefined.
- Vsnprintf.VsnprintfLoop: requires what `Convert` requires of every directive, and none cut off by the end of the format.
- Vsnprintf.Snprintf: requires the same.
- Floating-point printing (`_ftoa`, `_etoa`), the output functions other than the buffer and the null output, and `printf_`, `sprintf_`, `fctprintf`.
- Itoa.Itoa: requires a base from 2 to 36 and, in base 10, a value other than the least one, whose negation C leaves undefined.
- The glyph rasteriser, kerning, font selection and UTF-8 decoding of `ssfn.h`; what a glyph record contains.
- GlyphTable.Find: requires that the cells of the table cover all code points below 0x110000 or hold the record sought; otherwise the source reads on behind the table.
- Logging, the memory-map print-out and the row dump of `pmm.c`.
- Serial ports, APIC, GDT, IDT, framebuffer and the remaining hardware code.
