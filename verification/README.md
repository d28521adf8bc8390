# libcmini in Dafny

libcmini is a small C library for the Atari ST and its relatives: a 68000
with 32-bit `int`, `long` and pointers under the GEMDOS operating system. This
project models the algorithms of the library that carry state or tricky
arithmetic, and proves what they promise. Code that updates memory in place is
imperative Dafny, proved against functions and predicates over values; the
theorems are about those.

## What is modelled

**The allocator** (`Memory`, `HeapLayout`, `HeapList`, `HeapWords`, `Heap`,
`HeapRun`, `HeapGrowth`, `HeapReuse`). Memory is a map from addresses to bytes, words are stored
big-endian, and every header field and list link is a word in it. `malloc`,
`free` and `realloc` read and write those words. Two ghost variables say what
the words mean: `t` maps every header to its tile (region header, free chunk,
live block), `l` is the list in order. The invariant `Valid` says: each region
that the operating system has handed out is exactly tiled; the list is a
doubly linked ring of exactly the region headers and free chunks in ascending
order; no two free chunks of a region touch; every region held has a live block
in it. `HeapRun` lets a program make any calls in any order, with any answer
of the operating system, and shows that every byte that it has written to a
block and not overwritten is still there, across all the calls that follow,
`realloc` included, and that nothing is held once everything is freed.
`HeapGrowth` says how much the allocator asks for in the course of a run,
`HeapReuse` that what is freed can be had again.

**qsort and bsearch** (`Ordering`, `Bytes`, `QsortLemmas`, `QsortBounds`,
`Qsort`). The table is an array of bytes; swapping and the rotation of the
insertion phase move bytes. The partition phase leaves parts of at most five
elements with cuts between them, so the least element is among the first five
and serves as a sentinel for the insertion sort. What the code compares are
addresses, and byte differences as signed numbers of 32 bits. `QsortBounds` says
for which tables that is comparing places and sizes: for these the stack of 32
segments, whose slot 0 is a dummy, never fills up, no search leaves the table,
and the table is sorted.

**Numbers and text** (`CInt`, `Numerals`, `IntegerToText`, `TextToInteger`,
`NumberText`, `NumberStandard`, `CType`, `PrintfSpec`, `Printf`,
`TextConversion`, `MemStream`, `Doprnt`, `DirectiveText`, `LetterText`,
`PrintfText`). `itoa`,
`ultoa`, the parsers behind `strtol`, `strtoul` and `strtoull` with their
shift-and-add multiplication, and the conversions of integers, characters and
strings in `doprnt` with flags, width, precision and `*`, down to the truncating
sink of `vsnprintf`, whose cursor and result have 32 bits. `PrintfSpec.Standard`
is section 7.21.6.1 of ISO/IEC 9899:2011 for one integer conversion; `doprnt`,
which builds numbers backwards in a buffer of 128 characters, is proved to emit
it, and `LetterText` says so letter by letter for directives written out as text.
What is printed parses back.

**The calendar** (`Calendar`). `gmtime` walks years and months in both
directions, `mktime` uses a closed formula with truncating division. Both are
proved against a count of days year by year and month by month.

**Fast forms** (`M68kDivision`, `TextStream`, `Strchrnul`, `Rand`, `RandTable`,
`RandPeriod`). The division routines of the 68000 with their registers and extend flag, the
conversion of LF to CR LF in `fwrite`, the word-at-a-time `strchrnul` on bit
vectors, and Schrage's method in `rand`, whose runs are shown to have the full
period of 2^31 - 2.

**Environment and command line** (`Environment`, `CommandLine`). `setenv`,
`unsetenv` and `getenv` over an array of pointers refine a finite map;
`parseargs` turns an ordinary command tail into words.

Where code and standard part, the model follows the code, and a lemma says
exactly when the two agree, with an input for which they do not beside it:
`NumberStandard.ParseMeetsStandard` (plus signs, white space other than blanks,
text without digits, 0x and 0b), `TextToInteger.Strtoul` (a negative number
that saturates), `PrintfSpec.PrecisionZero` (precision zero is taken for none,
and so is a point with nothing behind it), `PrintfSpec.SignFlags` (the last of
plus and space wins), `TextConversion.CharMeetsStandard` and
`TextConversion.TextMeetsStandard` (null characters and cut strings in a field,
negative precisions), `Calendar.Clock.Gmtime` (`tm_yday` on New Year's Day after
1970, `tm_wday` before 1970), `Heap.RequestWraps` (sizes that wrap),
`Environment.Environ.AddToEnviron` (malloc failing behind realloc). So it is
where 32 bits are not enough: `IntegerToText.Itoa` (the least int),
`Doprnt.Vsnprintf` (more than 2^31 - 1 characters, or more than there are
addresses left), `TextStream.AllReported` (2^31 bytes or more in one call of
`fwrite`), `QsortBounds.ComparisonWraps`, `Qsort.LeastToFront`,
`Qsort.InsertionSort` and `Qsort.MiddleWraps`. The check of the base in the parsers
(sources/strtoul_int.c:80) can never be true, so every base is accepted.

## Model

| member | source | states |
|---|---|---|
| HeapLayout.RegionExactlyTiled | sources/mallint.h:8-25 | every byte of a held region lies in exactly one header-and-payload tile of that region: no gap, no overlap, nothing across regions |
| HeapLayout.HeldRegionHasLiveBlock | sources/free.c:64-70 | a region that is still held has a live block in it |
| HeapLayout.LiveBlocksDisjoint | sources/malloc.c:86-102 | a live block overlaps no other block, free chunk or region header |
| HeapLayout.NothingLiveNothingHeld | sources/free.c:64-70 | with no live block there is no region and no tile at all |
| HeapLayout.FreeUnsettles | sources/free.c:34 | marking a block free disturbs coalescing only around it, and emptiness only in its region |
| HeapLayout.AbsorbNextSettles | sources/free.c:46-52 | merging the chunk behind leaves at most the chunk in front to merge, and no live block changes |
| HeapLayout.AbsorbPrevSettles | sources/free.c:54-62 | merging into the chunk in front restores full coalescing |
| HeapLayout.DropSettles | sources/free.c:64-70 | returning a vacant region restores the whole layout invariant |
| HeapLayout.SplitSettles | sources/malloc.c:86-92 | cutting a block off the top of a free chunk keeps the layout invariant and adds exactly that block |
| HeapLayout.TakeSettles | sources/malloc.c:93-99 | taking a whole chunk keeps the layout invariant and adds exactly that block |
| HeapLayout.GrowSettles | sources/realloc.c:74-86 | growing a block into the free chunk behind it keeps the layout invariant |
| HeapLayout.AddRegionSettles | sources/malloc.c:54-84 | a new region is coalesced, and it is the only vacant one |
| HeapList.RingReplace | sources/free.c:42-45 | rewriting the links at two neighbours and the nodes between them keeps the ring doubly linked |
| HeapList.ListedInsert | sources/free.c:36-45 | inserting in front of the first node not below keeps the list ascending and complete |
| HeapList.ListedRemove | sources/malloc.c:95-98 | removing a node that is no longer free keeps the list ascending and complete |
| HeapWords.LinkInShape | sources/free.c:42-45 | the four stores that link a node keep headers, ring and list in agreement with the layout |
| HeapWords.SplitShape | sources/malloc.c:86-92 | the stores of a top split do |
| HeapWords.TakeShape | sources/malloc.c:95-98 | the stores that unlink a chunk do |
| HeapWords.AbsorbShape | sources/free.c:47-52 | the stores of a merge do |
| HeapWords.RegionShape | sources/malloc.c:64-81 | the stores that set up and link a new region do, even if it touches another region |
| HeapWords.DropShape | sources/free.c:64-70 | unlinking a region header and its chunk and unmapping the region does |
| HeapWords.PayloadWrite | sources/realloc.c:50-52 | a store into a live payload changes no header and no link |
| HeapWords.HeaderWords | sources/mallint.h:8-25 | mark and size of every piece of the heap, and the size behind a region header, word by word |
| HeapWords.LinkWords | sources/mallint.h:15-16 | the two links of every node and of the sentinel |
| Memory.BigEndian | sources/mallint.h:8-21 | a stored word has its most significant byte first |
| Heap.RequestWraps | sources/malloc.c:29-52 | the chunk holds the request and the region holds the chunk exactly if neither the request with its two headers nor MINHUNK exceeds 2^32 - 8192; no size has wrapped then |
| Heap.WrappingRequests | sources/malloc.c:29-52 | 2^32 - 1 bytes get an empty chunk, 2^32 - 20 a region of 8192 bytes, and for 2^32 - 40 nothing is asked |
| Heap.NothingLeaks | sources/free.c:64-70 | with nothing live: no region held, list empty, nothing mapped but the sentinel |
| Heap.EmptyHeap | sources/free.c:13 | the initial sentinel satisfies the invariant |
| Heap.NodeBehind | sources/realloc.c:65-74 | a free chunk right behind a block is the first node that the list walk does not pass |
| Heap.MovedOk | sources/realloc.c:88-96 | allocate, copy and free together replace one block by another with the same first bytes and leave all others alone |
| Heap.GrownOk | sources/realloc.c:74-86 | a block grown in place keeps its bytes, and all others theirs |
| Heap.Heap.constructor | sources/free.c:13 | a program starts with a valid empty heap, a sentinel of size zero that is its own neighbour, and the default chunk sizes |
| Heap.Heap.SetChunkSize | sources/malloc.c:17 | both chunk sizes are set, whatever the size, and the heap stays valid |
| Heap.Heap.FindFit | sources/malloc.c:31-35 | the lowest free chunk that is big enough, or the sentinel exactly if none is |
| Heap.Heap.OsMalloc | sources/malloc.c:54 | the region provider: nothing, or new memory, recorded as held |
| Heap.Heap.RegionSize | sources/malloc.c:40-52 | the least number of pages that the request with its headers and MINHUNK fit in; MINHUNK doubles if the request was not more than it, and it was below MAXHUNK |
| Heap.Heap.MoreCore | sources/malloc.c:38-84 | a new region of as many pages as the request or MINHUNK needs, in the list with one free chunk, or nothing changed and ENOMEM; MINHUNK doubles if the request was not more than it, and it was below MAXHUNK |
| Heap.Heap.Carve | sources/malloc.c:86-99 | the layout afterwards: exactly `need` bytes off the top if more than a header is left, else the whole chunk |
| Heap.FirstFitIs | sources/malloc.c:31-35 | in numbers, what the chunk is that malloc takes: the lowest free one that is not too small |
| Heap.Heap.Obtain | sources/malloc.c:29-84 | the first fit, or the chunk of a new region, or nothing and ENOMEM |
| Heap.Heap.Malloc | sources/malloc.c:20-108 | invariant kept; NULL exactly if nothing fits and the system refuses, then nothing has changed; else one new block, carved from the top of the first fit or of the new region, of exactly the size needed if more than a header is left and of the whole chunk otherwise; the system is asked only if nothing fits, for the right size, and MINHUNK doubles exactly if it is asked for little; every payload kept |
| Heap.Heap.LinkFree | sources/free.c:34-45 | the block becomes a free chunk in its place in the list |
| Heap.Heap.MergeAfter | sources/free.c:46-52 | the chunk behind is swallowed exactly if it is free, touches and belongs to the same region |
| Heap.Heap.MergeBefore | sources/free.c:54-62 | the same for the chunk in front |
| Heap.Heap.OsMfree | sources/free.c:69 | only a held region is returned, and it is unmapped: none goes back twice |
| Heap.Heap.ReturnRegion | sources/free.c:64-70 | the region goes back exactly if it is vacant |
| Heap.Heap.Free | sources/free.c:16-71 | exactly this block dies, exactly the regions with a live block stay held, every other payload is kept; NULL, dead pointers and stale ones whose header is gone change nothing |
| Heap.Heap.Memcpy | sources/realloc.c:52 | copies between disjoint ranges and changes nothing else |
| Heap.Heap.GrowInPlace | sources/realloc.c:62-86 | grows into the free chunk behind exactly if there is one that is big enough; otherwise nothing changes |
| Heap.Heap.Move | sources/realloc.c:47-53 | the first `count` bytes move to a new block, or nothing changes |
| Heap.ResizedIs | sources/realloc.c:42-100 | in numbers, when realloc keeps a block: up to 32 bytes too many stay; a free chunk behind it is taken if both are enough; else a new block is needed, and only a block that is too small is lost without one |
| Heap.Heap.Resize | sources/realloc.c:42-101 | what Realloc promises for a live block and a size other than zero |
| Heap.Heap.Realloc | sources/realloc.c:9-102 | the first min(old capacity, n) bytes survive, all other blocks too; when the block stays where it is, grows in place or moves, exactly; fails only if a grow neither fits in place nor elsewhere, and then leaves everything as it was; errno, MINHUNK and the region asked for, exactly; NULL, zero and dead pointers as in the code |
| Heap.Heap.ServesNow | sources/malloc.c:29-52 | whether a request is free of wrapped sizes: MINHUNK matters only if no free chunk is big enough |
| Heap.Heap.ResizesNow | sources/realloc.c:42-101 | the same for a size that a live block shall have: nothing matters if the block stays or is freed |
| HeapRun.MallocRemembers | sources/malloc.c:86-102 | an allocation does not disturb what was written to other blocks |
| HeapRun.FreeRemembers | sources/free.c:16-71 | neither does freeing a block |
| HeapRun.ReallocRemembers | sources/realloc.c:9-102 | neither does moving or growing a block, whose own bytes survive up to the new size |
| HeapRun.Step | sources/realloc.c:9-102 | any one call keeps the heap valid, the pointers distinct and the written bytes in place, and does to the slots what it must: a request is served exactly if a chunk fits or the system gives, a block that can stay or shrink is never lost, size zero empties the slot; and to chunk sizes and regions, too |
| HeapRun.Run | sources/malloc.c:20-108 | after any sequence of calls, from which those with a wrapped size are left out, the heap is valid and every byte written and not overwritten is still there; each call succeeded exactly if it had to; if all is freed, no region is held and the list is empty |
| HeapGrowth.GrowthLaw | sources/malloc.c:13-15 | in a run from the start the chunk size is min(8192 * 2^k, 32768) after k requests that no chunk fits and that are not more than it |
| HeapGrowth.NeverShrinks | sources/malloc.c:46-51 | the chunk size never shrinks in such a run |
| HeapGrowth.RegionLaw | sources/malloc.c:40-54 | the k-th such request gets a region of exactly that size; a bigger one gets as many pages as it needs, and the chunk size stays as it is |
| HeapGrowth.TunedLaw | sources/malloc.c:18 | once it is set, the chunk size stays what it is |
| HeapGrowth.RunFromStart | sources/malloc.c:20-108 | every program from its start, without setting the chunk size, is such a run |
| HeapReuse.FreedIsFree | sources/free.c:46-62 | bytes of a region without a live block lie in one free chunk |
| HeapReuse.FreeThenMalloc | sources/free.c:16-71 | a block is freed whose region has another one: a request that it was big enough for is served, whatever the system says |
| HeapReuse.MallocThenRealloc | sources/realloc.c:42 | realloc to the size that was asked for leaves the block where it is |
| Ordering.RotatedMultiset | sources/qsort.c:225-234 | a rotation is a permutation |
| Bytes.ViewByte | sources/qsort.c:78-97 | byte `o` of element `k` lies at k * width + o |
| Bytes.Table.Swap | sources/qsort.c:24-35 | the byte loop exchanges two whole elements, a no-op for an element and itself |
| Bytes.Table.RotateColumn | sources/qsort.c:226-234 | one pass of the strided loop shifts one byte column by a place |
| Bytes.Table.Rotate | sources/qsort.c:222-235 | all passes rotate whole elements by one place |
| QsortLemmas.PartitionStep | sources/qsort.c:156-182 | partitioning one segment keeps the rest of the table in parts of at most five elements with cuts between them, and a cut on either side of every pending segment |
| QsortLemmas.HalvingStep | sources/qsort.c:161-182 | if the larger part is pushed, the segment at depth d keeps to at most n / 2^d elements |
| QsortLemmas.DepthBound | sources/qsort.c:49-52 | at most 30 segments are pending as long as the halving holds |
| QsortLemmas.WeightStep | sources/qsort.c:103-183 | every round of the partition loop leaves less to do |
| QsortLemmas.LeastIsEarly | sources/qsort.c:200-206 | after partitioning the least of the first five elements is the least of all |
| QsortLemmas.InsertSorted | sources/qsort.c:216-235 | rotating an element to its place extends the sorted part |
| QsortBounds.SmallExact | sources/qsort.c:161-169 | comparing the byte length of a part with the threshold, both in 32 bits, is comparing elements, for every table in memory of more than four elements |
| QsortBounds.ComparisonWraps | sources/qsort.c:172 | comparing the byte lengths of two parts as signed numbers is comparing their sizes, for all parts that qsort compares, exactly if (n - 7) * width < 2^31 |
| QsortBounds.StackFillsUp | sources/qsort.c:172-181 | in a table of 2^31 + 200 bytes, 32 times in a row, six bytes cut off the end go on the stack and the large part is gone on with |
| QsortBounds.SearchExact | sources/qsort.c:197-204 | the search for the least element covers the first five, or the table, if the threshold reaches them; otherwise it covers nothing |
| QsortBounds.ThresholdWraps | sources/qsort.c:85 | two elements of 2^30 bytes are not searched, wherever they are |
| QsortBounds.BehindExact | sources/qsort.c:214 | for two elements or more the end of the table is found by its address |
| QsortBounds.SecondWraps | sources/qsort.c:213-214 | for one element of 0x60000000 bytes at 0x40000000 it is not |
| QsortBounds.Small | sources/qsort.c:78-240 | a table of less than 2^31 bytes that leaves room for four more elements behind it is sortable |
| Qsort.MedianOfThree | sources/qsort.c:110-125 | first, middle and last element in order, the segment permuted, nothing else touched |
| Qsort.ScanUp | sources/qsort.c:137-138 | the unguarded scan stops at or before `hi` |
| Qsort.ScanDown | sources/qsort.c:140-141 | the unguarded scan stops at or after `lo` |
| Qsort.WallsPart | sources/qsort.c:135-154 | crossed pointers mean a partitioned segment |
| Qsort.Partition | sources/qsort.c:115-154 | both parts are smaller than the segment, and pairs across them are in order |
| Qsort.PartsExact | sources/qsort.c:161-172 | for such a table the three comparisons of lengths are comparisons of sizes |
| Qsort.PartitionAll | sources/qsort.c:94-184 | terminates and permutes; if the stack was big enough it leaves parts of at most five elements with cuts between them, and if not there were 33 segments to do; it always is if (n - 7) * width < 2^31 |
| Qsort.LeastToFront | sources/qsort.c:197-209 | the least element comes first exactly if the threshold reaches the fifth element or the end of the table, or it was there already |
| Qsort.FindPlace | sources/qsort.c:216-220 | the place behind the last element that is not greater, or 0 if there is none and the search leaves the table |
| Qsort.InsertionSort | sources/qsort.c:211-236 | permutes; stays within the table and sorts it exactly if the least element is in front and, for one element, the place two elements on is not taken for one in the table |
| Qsort.Qsort | sources/qsort.c:78-240 | a permutation for every total preorder; sorted and within table and stack for every sortable table; up to four elements otherwise exactly if the least is in front, for more elements whenever the stack was big enough |
| Qsort.MiddleWraps | sources/bsearch.c:27 | the middle is right for all parts of a table exactly up to 2^31 elements |
| Qsort.BelowAll | sources/bsearch.c:30-31 | what is right of an element greater than the key is greater than the key |
| Qsort.AboveAll | sources/bsearch.c:32-33 | what is left of an element less than the key is less than the key |
| Qsort.Bsearch | sources/bsearch.c:13-38 | a match exactly if there is one |
| Numerals.NumeralDenotes | sources/itoa.c:21-23 | the digits of a number denote it and start with zero only for zero |
| Numerals.NumeralLetters | sources/itoa_n.c:1 | digits above 9 are small letters for itoa, ultoa and %x, and capitals for %X |
| Numerals.DigitValIs | sources/strtoul_int.c:112-120 | the parsers take 0-9, a-z and A-Z for the digits 0 to 35, and nothing else |
| Numerals.WholeAlphabets | sources/strtoul_int.c:112-120 | the 36 digits and small letters, and the 36 with capitals, are such alphabets |
| Numerals.NumeralLength | sources/itoa.c:13 | a number below 2^n has at most n digits in any base |
| Numerals.LeadingZeros | sources/strtoul_int.c:112-126 | zeros in front do not change what digits denote |
| Numerals.PutDigits | sources/itoa.c:21-23 | the digit loop builds exactly the numeral, backwards |
| IntegerToText.ReverseOut | sources/itoa.c:27-30 | the reversal loop writes the text and its terminator and nothing else |
| IntegerToText.LeavesTableIf | sources/itoa.c:21-23 | the digit loop looks for a digit in front of the digit table exactly for negative numbers |
| IntegerToText.Itoa | sources/itoa.c:9-33 | sign and numeral, with digits of the table only, exactly for every value but the least; the inner buffer of 34 never overflows |
| IntegerToText.Ultoa | sources/ultoa.c:6-22 | the numeral, likewise |
| TextToInteger.Mul32 | sources/strtoul_int.c:34-56 | the flag is raised exactly if the product does not fit, else the result is the product |
| TextToInteger.Add32 | sources/strtoul_int.c:59-70 | the same for a sum |
| TextToInteger.AddPair | sources/strtoull_int.c:64-66 | two registers add as one number, the carry included |
| TextToInteger.Mul64 | sources/strtoull_int.c:45-73 | Mul32 in two registers |
| TextToInteger.Add64 | sources/strtoull_int.c:76-90 | Add32 in two registers |
| TextToInteger.ValueStep | sources/strtoul_int.c:121-125 | one digit more never makes the value smaller, so an overflow is final |
| TextToInteger.ReadOpening | sources/strtoul_int.c:83-110 | blanks, sign, prefix and base as the grammar says |
| TextToInteger.Accumulate32 | sources/strtoul_int.c:112-130 | the exact value of any number of digits or ULONG_MAX; all digits are consumed |
| TextToInteger.Accumulate64 | sources/strtoull_int.c:133-152 | the same with ULLONG_MAX |
| TextToInteger.StrtoulInternal | sources/strtoul_int.c:73-135 | value, end and sign of the number at the start of a text, for every base |
| TextToInteger.StrtoullInternal | sources/strtoull_int.c:93-157 | the same in 64 bits |
| TextToInteger.Strtol | sources/strtol.c:5-9 | the signed number clamped to the range of a long |
| TextToInteger.Strtoul | sources/strtoul.c:4-8 | what the standard asks exactly if no negative number saturates; 1 otherwise |
| NumberText.ParseSubject | sources/strtoul_int.c:83-130 | blanks, sign, prefix, digits and any rest that starts with no digit: the parser finds the value, the sign and the end |
| NumberText.NumeralReadBack | sources/strtoul_int.c:83-130 | what itoa writes parses back completely |
| NumberText.AlphabetReadBack | sources/strtoul_int.c:83-130 | a numeral of any base from 2 to 36, written with digits and letters in either case, parses back completely |
| NumberText.SignedReadBack | sources/strtol.c:5-9 | every long comes back through strtol |
| NumberText.ItoaThenStrtol | sources/itoa.c:16-30 | strtol(itoa(v, b), b) = v for 2 <= b <= 16 and every v but the least, the end at the terminator |
| NumberText.UltoaThenStrtoul | sources/ultoa.c:12-19 | strtoul(ultoa(u, b), b) = u, the end at the terminator |
| NumberText.StrtoulFails | sources/strtoul.c:7 | the standard wants ULONG_MAX for -4294967296 |
| NumberText.StrtoulOfTooSmall | sources/strtoul.c:4-8 | and strtoul returns 1 |
| NumberStandard.ParseMeetsStandard | sources/strtoul_int.c:83-134 | for base 0 and 2 to 36 the parser finds the number and the end that the standard asks for exactly if the text conforms: no plus, no white space but blanks, a digit, no 0b, and 0x only before a hexadecimal digit in base 0 or 16; or no digit and nothing to skip in front |
| NumberStandard.FailingSigns | sources/strtoul_int.c:83-128 | +1, a line feed before 5, and a blank before x come out wrong |
| NumberStandard.FailingHexadecimals | sources/strtoul_int.c:99-103 | so do 0xg in base 16 and 0x1 in base 10 |
| NumberStandard.FailingBinary | sources/strtoul_int.c:94-98 | so does 0b1 with base 0 |
| NumberStandard.FailingZeroB | sources/strtoul_int.c:94-98 | and with base 16 |
| NumberStandard.StandardReads | sources/strtoul_int.c:73-135 | what the standard reads: any white space, a sign or none, a prefix or none, digits, and something else |
| NumberStandard.StandardReadsNothing | sources/strtoul_int.c:73-135 | without a digit it reads nothing, and the end is the start |
| CType.SpacesAre | include/ctype.h:31 | white space is blank, tab, line feed, vertical tab, form feed and carriage return |
| PrintfSpec.PrecisionZero | sources/doprnt.c:254-273 | precision zero comes out as the standard asks exactly if there is a digit to print and the zero flag has nothing to fill |
| PrintfSpec.PrecisionZeroFails | sources/doprnt.c:254-273 | precision zero prints a digit for 0 |
| PrintfSpec.PrecisionZeroFills | sources/doprnt.c:254-273 | and lets the zero flag fill |
| PrintfSpec.SignFlags | sources/doprnt.c:99-107 | plus and space together come out right exactly if no sign flag shows, there is no plus, or the plus comes last |
| PrintfSpec.SignFlagsFail | sources/doprnt.c:99-107 | plus, then space, prints 5 with a blank |
| PrintfSpec.PlainIs | sources/doprnt.c:628-680 | base, value and case of the digits of every integer conversion, in numbers |
| Printf.UnsignedShape | sources/doprnt.c:687-738 | prefix, zeros and digits as the code counts them are what the standard asks, octal and hexadecimal prefixes included |
| Printf.PutZerosAndSign | sources/doprnt.c:289-312 | the sign behind the zeros, or in place of the last one |
| Printf.BuildSigned | sources/doprnt.c:228-314 | the buffer holds the body of %d or %i backwards, and what is left of the field is exact |
| Printf.BuildUnsigned | sources/doprnt.c:628-740 | the same for %u, %o, %x and %X |
| Printf.EmitField | sources/doprnt.c:316-330 | the field, flush left or right, and its length added to the count, an int |
| Printf.Convert | sources/doprnt.c:185-333 | one integer conversion emits exactly the text of the standard for its effective precision |
| PrintfText.BodyLength | sources/doprnt.c:254-312 | how many places of the buffer a conversion takes, exactly |
| PrintfText.WhatFits | sources/doprnt.c:24 | a precision up to 126 and zeros up to 128 fit; a precision above 128 does not |
| TextConversion.CharMeetsStandard | sources/doprnt.c:762-785 | without the zero flag, %c is what the standard asks exactly if the character is not null or the width is zero |
| TextConversion.CharFails | sources/doprnt.c:766-768 | a null character in a field of three writes four characters |
| TextConversion.TextMeetsStandard | sources/doprnt.c:787-817 | without the zero flag, %s is what the standard asks exactly if the precision does not cut the string or the field is not wider than the precision; with a negative one other than -1, only for the empty string |
| TextConversion.TextFails | sources/doprnt.c:797-807 | %5.2s of abc is one blank short, and a precision of -2 hides it |
| TextConversion.ConvertChar | sources/doprnt.c:762-785 | what %c emits, and its length added to the count |
| TextConversion.ConvertText | sources/doprnt.c:787-817 | the same for %s |
| MemStream.Stream.constructor | sources/vsnprint.c:28-29 | nothing emitted yet |
| MemStream.Stream.AddChar | sources/vsnprint.c:13-23 | one character more is emitted; what fits is stored, and nothing else is touched until the cursor has passed the end of the address space |
| MemStream.Stream.Terminate | sources/vsnprint.c:31-39 | the longest part that fits and a terminator; size zero writes nothing; the result is the length as an int; something goes astray exactly if the cursor has come to the end of the address space |
| Doprnt.ReadFlags | sources/doprnt.c:90-128 | flags in any number and order; the last sign flag counts |
| Doprnt.ReadDigits | sources/doprnt.c:141-144 | the value of the longest run of digits |
| Doprnt.ReadDirective | sources/doprnt.c:88-181 | flags, width, precision, length and letter, and how many arguments they take |
| DirectiveText.DirectiveParts | sources/doprnt.c:88-181 | flags, width digits or asterisk, precision, length letters and conversion letter, written one behind the other, are read back as exactly those parts |
| LetterText.IntegerDirective | sources/doprnt.c:178-181 | %d, %i, %u, %o, %x and %X, flags, width and precision before the letter, write what the standard asks for this very letter if sign flags and precision zero are regular, and take one argument; D, I, U and O mean the small letters |
| LetterText.PointerDirective | sources/doprnt.c:555-559 | %p is %#x |
| LetterText.CharDirective | sources/doprnt.c:762-785 | %c and %C write what the standard asks for c, and take one argument |
| LetterText.TextDirective | sources/doprnt.c:787-817 | %s and %S write what the standard asks for s, (nil) for a null pointer, and take one argument |
| LetterText.PercentDirective | sources/doprnt.c:819-821 | %% writes one percent sign and takes no argument |
| LetterText.OtherDirective | sources/doprnt.c:823-824 | any letter that is no conversion writes nothing and takes no argument |
| LetterText.PlainCharacter | sources/doprnt.c:66-69 | any other character stands for itself |
| Doprnt.DoPrint | sources/doprnt.c:47-843 | the whole format is emitted; the count is its length exactly if that is at most 2^31 - 1, and else its low 32 bits as an int |
| Doprnt.Vsnprintf | sources/vsnprint.c:25-40 | the result is the full length exactly if that is at most 2^31 - 1; the string holds its longest prefix below size, a terminator, and nothing else is written, exactly if the length does not come to the end of the address space |
| DirectiveText.WidestField | sources/doprnt.c:130-144 | a field of 2^31 - 1 characters, its width from the arguments, is accepted and written |
| DirectiveText.CountTurnsNegative | sources/vsnprint.c:39 | one character and such a field: 2^31 characters, and the result is -2^31 |
| DirectiveText.CursorPassesEnd | sources/vsnprint.c:17-18 | two such fields: 2^32 - 2 characters, the result is -2, and the cursor has passed the end of the address space unless the string was at address 1 |
| PrintfText.FieldReadBack | sources/strtoul_int.c:83-130 | a number in a field of any width parses back, blanks before or behind it |
| PrintfText.DecimalReadBack | sources/doprnt.c:228-333 | %d parses back with base 10, and with base 0 if no zeros were added, exactly if no plus was printed; the least long is no exception |
| PrintfText.HexReadBack | sources/doprnt.c:628-760 | %#x and %#X parse back with base 0 and 16, whatever the flags, width and precision |
| PrintfText.OctalReadBack | sources/doprnt.c:628-760 | so does %#o with base 0 |
| PrintfText.PrintedParsesBack | sources/strtol.c:5-9 | %ld, %#lx and %#lo: printed text parses back with base 0 to the printed value, up to its end |
| Calendar.LeapRule | sources/mktime.c:4-7 | every fourth year is right from 1901 to 2099 |
| Calendar.DaysToYearClosed | sources/mktime.c:32-53 | counting days year by year, in either direction, is a closed formula |
| Calendar.CountLeaps | sources/mktime.c:32-48 | the truncating formula with its January and pre-1970 corrections counts the leap days |
| Calendar.CountDays | sources/mktime.c:50-53 | the day number of a date is the sum over years and months |
| Calendar.Mktime | sources/mktime.c:9-58 | the seconds of a date plus the time zone, modulo 2^32 |
| Calendar.SecondsIncrease | sources/mktime.c:50-57 | later dates have more seconds |
| Calendar.DateUnique | sources/mktime.c:50-57 | no two dates have the same seconds |
| Calendar.YearBounds | sources/gmtime.c:50-67 | 32-bit times lie between 1901 and 2038 |
| Calendar.Overshoot | sources/gmtime.c:59 | the year walk stops one year early exactly on New Year's Days after 1970 |
| Calendar.GmtimeFails | sources/gmtime.c:41-59 | 31536000 is on a New Year's Day, and -86401 on a Tuesday |
| Calendar.Clock.SplitDays | sources/gmtime.c:31-48 | days and seconds in both directions; the weekday is right exactly from 1970 on, and on Wednesdays |
| Calendar.Clock.WalkYears | sources/gmtime.c:50-67 | terminates in both directions at the year of the day, or one day behind its end |
| Calendar.Clock.WalkMonths | sources/gmtime.c:69-95 | terminates at the month and day, with the carry into the next year |
| Calendar.Clock.Gmtime | sources/gmtime.c:19-102 | a valid date with exactly these seconds for every 32-bit time; tm_yday and tm_wday are right exactly under the stated conditions, and what they are otherwise; tm_isdst is -1 |
| Calendar.GmtimeOnNewYear | sources/gmtime.c:59 | tm_yday is wrong at the first |
| Calendar.GmtimeBefore1970 | sources/gmtime.c:42 | tm_wday at the second |
| Calendar.Clock.Localtime | sources/localtime.c:6-15 | all that gmtime promises, for the local time as a long |
| Calendar.MktimeAfterGmtime | sources/mktime.c:9-58 | mktime(gmtime(t)) = t for every 32-bit time |
| Calendar.MktimeAfterLocaltime | sources/localtime.c:6-15 | mktime(localtime(t)) = t for every 32-bit time and any time zone |
| Calendar.GmtimeAfterMktime | sources/gmtime.c:19-102 | gmtime(mktime(d)) gives back year, month, day, hour, minute and second of a valid date |
| M68kDivision.StepKeeps | sources/purec/uldiv.s:42-49 | one step of the loop keeps dividend = quotient * divisor + remainder over the bits seen so far |
| M68kDivision.Divide16 | sources/purec/uldiv.s:33-50 | after 16 steps the inverted quotient bits are in the low word and the remainder, shifted once too far, in the other register and the extend flag |
| M68kDivision.DivideByWord | sources/purec/uldiv.s:10-31 | both paths for a 16-bit divisor give the quotient |
| M68kDivision.RemainderByWord | sources/purec/ulmod.s:11-29 | and the remainder |
| M68kDivision.Uldiv | sources/purec/uldiv.s:6-51 | the quotient of any two 32-bit numbers |
| M68kDivision.Ulmod | sources/purec/ulmod.s:7-50 | the remainder, the last shift undone even if it carried out |
| M68kDivision.Ldiv | sources/purec/ldiv.s:6-73 | the truncated quotient, exact except for the one that no long holds |
| M68kDivision.Lmod | sources/purec/lmod.s:6-70 | the remainder with the sign of the dividend |
| M68kDivision.Div | sources/div.c:17-25 | quotient and remainder belong together in 32 bits always, and as numbers exactly unless the least long is divided by -1; the remainder is smaller than the divisor and has the sign of the dividend |
| TextStream.WithCrCleans | sources/fwrite.c:37-51 | converted text has a CR before every LF, clean text is left alone, and conversion is idempotent |
| TextStream.WithCrAddsOnly | sources/fwrite.c:35-53 | conversion puts in nothing but these CRs and leaves nothing out |
| TextStream.WithCrConcat | sources/fwrite.c:41-59 | converting piece by piece, with the last character carried over, is converting the whole |
| TextStream.Stream.OsWrite | sources/fwrite.c:60 | a write is complete and returns its length as a long, or fails, writes nothing, and is counted as a failure |
| TextStream.Stream.FillBuffer | sources/fwrite.c:35-53 | buffer and converted rest make up the conversion; a buffer that consumes nothing ends in a CR |
| TextStream.Stream.WriteText | sources/fwrite.c:27-72 | terminates; the file receives the conversion and the result is the length as a long, or on an error the file receives a prefix of it |
| TextStream.Stream.Fwrite | sources/fwrite.c:10-89 | all items are reported written exactly if no write of the system fails and size * nmemb < 2^31; the file has the conversion of the product cut to 32 bits, or a prefix of it if a write fails; the error flag is set if one does or if the cut product is 2^31 or more |
| TextStream.AllReported | sources/fwrite.c:13-89 | with no failing write, fwrite reports all items exactly if size * nmemb < 2^31 |
| TextStream.BigWriteFails | sources/fwrite.c:78-86 | for 2^31 bytes it reports nothing, and for 65536 items of 65536 bytes it writes nothing |
| TextStream.WriteAll | sources/fwrite.c:10-89 | any sequence of calls in text mode writes the conversion of the concatenation if no write fails and no part has 2^32 bytes; they report everything exactly if no write fails and no part has 2^31 |
| Strchrnul.HoleTestExact | sources/strchrnul.c:117-133 | the test fires exactly on a zero byte or on 0x80 in the first byte |
| Strchrnul.MaskIsWord | sources/strchrnul.c:69-74 | every byte of the mask is the character |
| Strchrnul.SilentWord | sources/strchrnul.c:117-133 | if neither test fires, none of the four bytes is the character or NUL |
| Strchrnul.Strchrnul | sources/strchrnul.c:29-163 | the first place that holds the character or NUL, for every alignment |
| Rand.Schrage | sources/rand.c:13 | the split product stays between -M and M and is congruent to A * s, for every long |
| Rand.Generator.constructor | sources/rand.c:9 | the first seed is 1 |
| Rand.Generator.Srand | sources/srand.c:6-9 | any seed, as the bits of a long |
| Rand.Generator.Rand | sources/rand.c:11-22 | 16807 * s mod 2^31 - 1 for every long, with no overflow on the way; zero exactly for multiples of the modulus |
| Rand.NextInverse | sources/rand.c:13-16 | multiplying by 1407677000 undoes a step |
| Rand.NextInjective | sources/rand.c:13-16 | different seeds have different successors |
| Rand.NthIsPower | sources/rand.c:11-22 | n steps multiply by 16807^n |
| Rand.NthInRange | sources/rand.c:11-22 | a run from 1..2^31-2 stays there |
| Rand.PureCycle | sources/rand.c:11-22 | the first value of a run to come back is its seed |
| RandTable.Sum | sources/rand.c:11-22 | if m steps multiply by x and n steps by y, then m + n steps multiply by their product |
| RandTable.WholeJump | sources/rand.c:11-22 | 2^31 - 2 steps multiply by 1 |
| RandPeriod.ShortJumps | sources/rand.c:4-7 | that number of steps divided by any of its prime factors does not lead back |
| RandPeriod.FullPeriod | sources/rand.c:4-7 | 16807 is a primitive root: the run from 1 is back exactly after multiples of 2^31 - 2 steps |
| RandPeriod.EveryValue | sources/rand.c:4-7 | it takes every value from 1 to 2^31 - 2 |
| RandPeriod.SeedReturns | sources/rand.c:11-22 | every run from such a seed has the full period |
| Environment.OneName | sources/getenv.c:22 | no entry binds two names, however one is a prefix of the other |
| Environment.WithoutBindsNone | sources/setenv.c:163-178 | no duplicate of a removed name is left |
| Environment.WithoutKeepsOthers | sources/setenv.c:163-178 | removing a name does not change what others are bound to |
| Environment.BoundKeepsOthers | sources/setenv.c:77-131 | setenv leaves the entries of all other names and their order alone |
| Environment.BoundBinds | sources/setenv.c:77-131 | the name is bound to the new value, or to the old one without replace |
| Environment.CallRefines | sources/setenv.c:58-134 | one call does to the list what it does to a finite map |
| Environment.RunRefines | sources/setenv.c:137-181 | so does any sequence of calls |
| Environment.IsBinding | sources/setenv.c:68 | comparing character by character decides whether an entry binds the name |
| Environment.Environ.Find | sources/setenv.c:66-75 | the first entry of the name, or the terminator |
| Environment.Environ.Getenv | sources/getenv.c:10-27 | what the first entry binds the name to |
| Environment.Environ.ShiftBack | sources/setenv.c:166-171 | the later pointers move down by one, terminator included |
| Environment.Environ.Unsetenv | sources/setenv.c:149-181 | every entry of the name goes, the others stay in order, or EINVAL and no change |
| Environment.Environ.constructor | sources/setenv.c:49 | the environment of a program before any call: nothing is owned, nothing freed |
| Environment.Environ.Enlarge | sources/setenv.c:81 | realloc fails, stays or moves; what was held is kept, and what was left is freed |
| Environment.Environ.Append | sources/setenv.c:87-111 | old entries, the new one and a terminator, whether the array was owned, moved or not |
| Environment.Environ.AddToEnviron | sources/setenv.c:58-134 | a new binding, a replaced one or no change, within the capacity of the array; -1 and ENOMEM exactly if memory is missing, with the entries unchanged; the module stays usable exactly if malloc does not fail behind a realloc that has moved an owned array |
| Environment.Environ.Setenv | sources/setenv.c:137-146 | the same for setenv, and EINVAL for what is no name |
| Environment.MallocBehindRealloc | sources/setenv.c:81-98 | a second binding with that failure leaves both pointers of the module in freed memory |
| Environment.Environ.Run | sources/setenv.c:137-181 | any sequence of calls leaves the list that the functions describe |
| CommandLine.CopiedIsPacked | sources/main.c:374-440 | the copied tail begins with its words, each terminated, and an empty string |
| CommandLine.WordsAreWords | sources/main.c:364-385 | words are not empty and hold no space and no NUL |
| CommandLine.FirstOfWords | sources/main.c:364-385 | nothing but spaces holds no word, and behind any spaces a word that ends or is followed by a space comes first |
| CommandLine.CopyTail | sources/main.c:364-439 | the copy loop stays in its buffer and leaves the packed words |
| CommandLine.FillArgv | sources/main.c:457-464 | one address for each word in order, then a null pointer |
| CommandLine.ParseArgs | sources/main.c:269-507 | argc and argv hold the words; environ begins at the first multiple of four above the bss, and environ, text and argv follow each other without a gap; the count is exact but for the bytes that aligning did not take |

## Left out

Assumptions:

- The operating system hands out regions that are 4-aligned, disjoint from all memory in use, and never end at the address of the list sentinel: free.c:47 and realloc.c:74 do not test for the sentinel.
- Heap.Heap.Malloc: takes the requests for which no size wraps, and these only. `Heap.RequestWraps` says that they are exactly those whose chunk and region are big enough, for a request that no free chunk fits; MINHUNK does not count if one does. The same goes for MoreCore, Move and Realloc.
- HeapRun.Run: leaves out the calls for which a size wraps, since they may write outside of the heap.
- A pointer passed to free or realloc is one that points behind a header of the heap, live or not, or behind a word that does not look like the mark of a live block.
- GEMDOS Fwrite is complete or an error; a short write is not modelled.
- The comparator of qsort and bsearch is a function of two elements and a total preorder; the allocation of the pivot buffer succeeds; bsearch has at most 2^31 elements. A table has an address behind it, as every object of C has.
- Signed arithmetic that overflows wraps, as the 68000 does it.
- Qsort.Qsort: what a push beyond the stack, or a search that has left the table, does to memory is not modelled; the method ends there and says so. `QsortBounds.StackFillsUp` is about lengths of parts, not about the elements that lead to them.
- Doprnt.Vsnprintf: what is stored outside of the string is not modelled, only that it happens; the rest of the string is left open then.
- `fwrite` with size 0 divides by zero and is excluded; the error number that it sets is not modelled.
- `strchrnul` may read up to the end of the aligned long in which the string ends.

Weaker or simpler than the code:

- M68kDivision.Ldiv: shares the unsigned core with Uldiv, where the assembly repeats it.
- M68kDivision.Lmod: likewise with Ulmod.
- Qsort.Partition: works on element indices; the pointers of the code are these times the width.
- TextToInteger.Strtol: C strings are sequences that hold a NUL; characters above 127 are no digits, as for the signed char of the code.
- IntegerToText.Itoa: what the text is for the least int depends on what is in front of the digit table, and is not modelled.
- Doprnt.DoPrint: the conversions of floating point are excluded, and so is a directive without a letter, which the code reads past; `ll` takes one 32-bit argument, as in a build without long long.
- Printf.Convert: the digits with their zeros must fit the buffer of 128.
- Environment.Environ.AddToEnviron: strings are values, so the sharing of strings with the caller is not captured.
- CommandLine.ParseArgs: the environment is a number of strings without ARGV, each with an equals sign; quoted tails and the NULL: list of ARGV are not modelled.
- Calendar.Mktime: `tzset` is a fixed time zone.
- Several C functions are split into methods, one for each loop or step; their loops over the same digits share one method.

Not modelled:

- GEMDOS traps, startup assembly, setjmp, NatFeats, files, directories, clocks and `FILE` opening and closing: hardware and foreign state.
- All floating point, and `doscan`.
- String and memory routines, ctype and strerror tables, thin wrappers: they would only add easy members.
- `_lmul` and `_ulmul`, 16-bit `int` builds, getopt, exit handlers, vasprintf.
