# Realm core storage: a verified model

This project models the storage layer of Realm: the slab allocator that hands out
refs and translates them to addresses, the bit-packed integer arrays with their
word-at-a-time searches, sums and counts, the nullable, mixed, string and blob
arrays built on them, and the writing of array trees to the file. Each part is
proved against what a client of it relies on.

State that the original changes in place is kept in classes (`SlabAlloc`, `Array`,
`ArrayIntNull`, `ArrayMixed`, `ArrayString`, …) whose methods are specified by the
contents they leave behind. The lock-free part of ref translation is a state machine
over the atomic steps of any number of threads.

## The parts

**Slab allocator** (`FreeRings`, `BoundaryTags`, `SlabState`, `SlabAllocator`).
Memory is a map of boundary tags and of free-block headers. `Valid()` says that the
blocks tile every slab with equal sizes in the two tags of each block, that no two free
blocks touch, that the circular lists by size hold exactly the free blocks, that every
block in use serves the request it was given for, and that the translation table shows
each slab in its own section above the baseline. Allocation, freeing, client writes, reset
and a growing file all keep it.

**Freed file space and old mappings** (`ReadOnlySpace`, `Retirement`, `Readers`). The map of
freed space holds the maximal runs of freed bytes. A replaced mapping stays mapped for as long
as a retained translation table needs it. In a run of readers, writers and purges an address that
a reader was given stays mapped until its version ends, provided that whenever something a reader
uses is replaced, the reader's version is one the allocator has been told of. That condition is
exact, and a run without it loses an address. Mapped means that the section which was asked for is
shown there, as far as the reader's version of the file goes.

**Ref translation** (`RefTranslation`). Readers translate refs without a lock while others
raise limits, add a cross-over mapping and publish it. The main result covers every run; a thread
that nobody hinders finishes, and what was translated once is answered at once.

**Packed integers** (`Bits`, `Lanes`, `DirectAccess`, `PackedArray`, `Bounds`). A word
is a natural number; lanes, masks, carries and borrows are proved lane by lane, and an
array is what its bytes decode to.

**Searching and aggregation** (`FirstSetBit`, `Find`, `FindOptimized`, `LaneSums`,
`PopCount`, `WordCount`, `SumCount`). Each fast form is tied to a plain scan, sum or count.

**Arrays of other values** (`IntNull`, `MixedEntries`, `MixedArray`, `Blob`,
`ShortStrings`, `SmallBlobs`, `BigBlobs`, `StringData`, `Strings`, `StringEnum`).

**Writing** (`DeepWrite`). A written tree stands for the same tree.

## Where the code does not do what its interface says

Each is stated exactly: when the code is right, and an input on which it is not.

- `do_alloc` admits requests below 2^26 bytes, but a section holds two boundary tags too, so
  2^26 - 8 is admitted and gets a block that is 8 bytes too small, which an assertion at the end
  of `allocate_block` catches where assertions are on (`SlabState.GrownSizeFits`,
  `SlabState.AdmittedButNotServed`, `SlabAllocator.SlabAlloc.DoAlloc`).
- `Array::count` misses elements when it counts a negative value in an array of width 8 or 16
  that fills a word, and at width 32 it compares with the low 32 bits of the value
  (`SumCount.CountRight`, `SumCount.CountWrong`).
- The addition test of the relational search can never be chosen for Less
  (`FindOptimized.LessNeverFast`).
- A nullable integer array that stores INT32_MAX can choose a null that fits 32 bits, and then
  reads an equal value back as null (`IntNull.Taken`). No stack address in user space leads there
  (`IntNull.CandidateNeeds64`); `IntNull.Kept` says which seeds do.
- `Array::blob_replace` subtracts the room in the last chunk from the size of the data without
  comparing them, so an append that does not fill that room wraps around (`Blob.RemainingExact`,
  `Blob.Append`). Neither caller gets there: `ArrayBlob::replace` splits a blob only when the data
  fills the room, as `Blob.ArrayBlob.Replace` shows, and `ArrayBigBlobs::set` replaces everything.
- It also appends without the zero terminator it was asked to add (`Blob.BlobReplace`).
- `ArraySmallBlobs` drops the ref of the new root when its bytes outgrow one node, so the elements
  survive exactly when they fit (`SmallBlobs.ArraySmallBlobs.Add`, `Insert`, `Set`, and
  `SmallBlobs.LosesBytes` for an input on which they do not). Nothing in a string leaf prevents it
  (`Strings.ArrayString.Set`, `Insert`, `Add`, and `Strings.TooManyStrings`).
- A value split over several nodes is read by `ArrayBigBlobs::get` as null (`BigBlobs.ReadBackIff`).
- Retired mappings rely on no kept table being stamped later than the youngest live version
  (`Retirement.SafeToReplaceIff`, `Retirement.DecreasingYoungestBreaks`). Only debug builds check
  anything, and they ask for more: every retained table must be stamped before the youngest
  version, so a purge that leaves the youngest version as it is aborts there when a table carries
  it (`SlabAllocator.SlabAlloc.PurgeOldMappings`).
- Replaced mappings and tables are stamped with the youngest version the allocator was told of, by
  opening, by compacting, by a write that begins or by a commit. Beginning to read a version that
  another process committed tells it nothing, so what such a reader uses can be stamped too early
  and be purged under it (`Readers.LateReaderLoses`). A replacement is safe if and only if no reader
  that relies on what is replaced is of a later version (`Readers.SafeIffCovered`).
- A sum at width 64 can overflow `int64_t` (`SumCount.Sum`, `SumCount.WideSumOverflows`).

## Model

| member | source | states |
|---|---|---|
| SlabAllocator.SlabAlloc.DoAlloc | src/realm/alloc_slab.cpp:196-242 | Aborts exactly when the request exceeds 2^26 - 16; otherwise one new block is in use, disjoint from all others, large enough by less than a block, translated exactly by the table; nothing else in use changes, and a slab is added exactly when the lists have neither an exact fit nor room to split |
| SlabAllocator.SlabAlloc.AllocThenFree | src/realm/alloc_slab.cpp:196-598 | Freeing what was just allocated restores the requests, the blocks in use and the committed size, and every block of the tiling unless a slab was added |
| SlabAllocator.SlabAlloc.AllocateBlock | src/realm/alloc_slab.cpp:365-385 | The block is free, off every list, and fits the request with less than another block to spare; the final assertion holds exactly up to 2^26 - 16; what is in use stays |
| SlabAllocator.SlabAlloc.TakeBlock | src/realm/alloc_slab.cpp:366-382 | An exact fit whenever one is listed, else the smallest listed size that leaves room for another block, and a new slab exactly when there is neither; all other free blocks stay listed and coalesced |
| SlabAllocator.SlabAlloc.FindLarger | src/realm/alloc_slab.cpp:273-281 | The least listed size with room for the request, a tag and another block, if any has |
| SlabAllocator.SlabAlloc.PopFreelistEntry | src/realm/alloc_slab.cpp:283-293 | The header of the circle comes off and exactly the other free blocks remain listed, also when it was the only one |
| SlabAllocator.SlabAlloc.RemoveFreelistEntry | src/realm/alloc_slab.cpp:304-318 | Any free block comes off the circle of its size, also when it is the header or alone in it; all other circles stand |
| SlabAllocator.SlabAlloc.PushFreelistEntry | src/realm/alloc_slab.cpp:320-338 | A loose block becomes the header of the circle of its size, which is made if there is none |
| SlabAllocator.SlabAlloc.MarkAllocated | src/realm/alloc_slab.cpp:355-363 | The block is in use in both its tags and the tiling stands |
| SlabAllocator.SlabAlloc.MarkFreed | src/realm/alloc_slab.cpp:340-353 | The block is free in both its tags; freeing it is the inverse of allocating it |
| SlabAllocator.SlabAlloc.BreakBlock | src/realm/alloc_slab.cpp:418-434 | Null, with nothing changed, exactly when the rest is too small for a block; otherwise two blocks tile the old one, both loose, the rest with its own ref |
| SlabAllocator.SlabAlloc.MergeBlocks | src/realm/alloc_slab.cpp:436-444 | Two loose neighbours become one block that spans both and the tag between them |
| SlabAllocator.SlabAlloc.GrowSlab | src/realm/alloc_slab.cpp:446-495 | The new slab lies in the next section, starts as one free block on no list, and its table entry translates it; the replaced table is retained |
| SlabAllocator.SlabAlloc.NewSlabSize | src/realm/alloc_slab.cpp:458-466 | The loop ends at the least multiple of 128K that covers the request and its tags, which is raised to what is allocated already and cut to a section |
| SlabState.GrownSizeFits | src/realm/alloc_slab.cpp:458-466 | A new slab has room for a request if and only if the request is at most 2^26 - 16 |
| SlabState.GrownSizeLeast | src/realm/alloc_slab.cpp:458-466 | It is no larger than any multiple of 128K that has room for the request and its tags and is at least what is allocated already, and at least as large as the smaller of that and a section |
| SlabState.AllocatedSizeAdds | src/realm/alloc_slab.cpp:1319-1325 | What is allocated is the sum of the sizes of the slabs |
| SlabState.AdmittedButNotServed | src/realm/alloc_slab.cpp:199-205 | The request of 2^26 - 8 bytes is admitted and fits no slab |
| SlabState.TranslateBlock | src/realm/alloc.hpp:547-566 | The table translates the ref of every block of every slab to the block's address, and such refs lie above the baseline |
| SlabAllocator.SlabAlloc.DoFree | src/realm/alloc_slab.cpp:498-581 | Above the baseline exactly the given block stops being in use; below it the assertions hold if and only if the ref is not null, a multiple of 8, and none of its bytes is free already, and then exactly those bytes become free |
| SlabAllocator.SlabAlloc.DoFreeSlab | src/realm/alloc_slab.cpp:568-580 | The block of a request is freed, the checks of its tags hold, and the committed size goes back |
| SlabAllocator.SlabAlloc.FreeSlabBlock | src/realm/alloc_slab.cpp:583-598 | After merging with whichever neighbours are free, no two free blocks touch, all are listed, and what is in use stays |
| SlabAllocator.SlabAlloc.MergeWithPrev | src/realm/alloc_slab.cpp:244-250 | A free block before the freed one is taken off its list and absorbed |
| SlabAllocator.SlabAlloc.MergeWithNext | src/realm/alloc_slab.cpp:252-258 | A free block after it is absorbed, after which all free blocks are apart |
| SlabAllocator.SlabAlloc.FreeInOrder | src/realm/alloc_slab.cpp:498-598 | Freeing all that was allocated, in any order, leaves each slab one free block |
| BoundaryTags.SameTiling | src/realm/alloc_slab.cpp:583-598 | Two coalesced tilings of the same slabs with the same blocks in use are equal, so what merging leaves does not depend on the order of frees |
| BoundaryTags.AllFree | src/realm/alloc_slab.cpp:1557-1577 | With nothing in use every slab is one free block |
| SlabAllocator.SlabAlloc.IsAllFree | src/realm/alloc_slab.cpp:1557-1577 | True if and only if no block is in use, although only the tags at the slabs' ends are read |
| SlabAllocator.SlabAlloc.ClientWrites | src/realm/alloc_slab.hpp:476-497 | Whatever the owner writes inside a block in use, the allocator's invariant stands |
| SlabAllocator.SlabAlloc.RebuildFreelistsFromSlab | src/realm/alloc_slab.cpp:407-416 | From any old contents, every slab becomes one listed free block |
| SlabAllocator.SlabAlloc.ResetFreeSpaceTracking | src/realm/alloc_slab.cpp:1104-1126 | Nothing is in use or freed any more; at most one slab, of minimal size, is kept, and a clean allocator keeps its blocks |
| SlabAllocator.SlabAlloc.ExtendFastMappingWithSlab | src/realm/alloc_slab.cpp:1327-1341 | One entry more; the old table is retained with what it points to |
| SlabAllocator.SlabAlloc.RebuildTranslations | src/realm/alloc_slab.cpp:1343-1391 | The table matches mappings and slabs, and a table that no longer did is retained |
| SlabAllocator.SlabAlloc.UpdateReaderView | src/realm/alloc_slab.cpp:1185-1308 | After the file grew, the mappings of whole sections stay and that of a partial one exactly when it was extended; all others are new; every mapping shows its whole section or up to the end of the file; the slabs keep their memory above the new baseline; and every view that a reader of a version up to the youngest recorded could have stays mapped |
| SlabAllocator.SlabAlloc.ExtendLast | src/realm/alloc_slab.cpp:1212-1227 | A partial last mapping is replaced exactly when it cannot be extended; what stays shows its section as far as the grown file goes |
| SlabAllocator.SlabAlloc.MapSections | src/realm/alloc_slab.cpp:1229-1257 | Each new mapping shows a whole section, the last as far as the file goes |
| SlabState.Rebased | src/realm/alloc_slab.cpp:1277-1286 | Moving all refs by the difference of the aligned baselines keeps each slab in its own section |
| SlabAllocator.SlabAlloc.PurgeOldMappings | src/realm/alloc_slab.cpp:1457-1470 | Exactly the mappings and tables stamped before the oldest live version go, and no view of a reader at or after that version is lost; the invariant stands if and only if no kept table is stamped later than the new youngest version, and the assertions of debug builds hold if and only if every table is stamped before it |
| SlabAllocator.SlabAlloc.VerifyOldTranslations | src/realm/alloc_slab.cpp:1422-1455 | The mapping assertions always hold, the version assertion if and only if every retained table is stamped before the given version |
| Retirement.ReaderSafe | src/realm/alloc_slab.cpp:1422-1455 | Everything a reader can still see through the mappings, or through a retained table stamped no earlier than its version, is mapped and stays so until that version ends |
| Retirement.MappingReplaced | src/realm/alloc_slab.cpp:1262-1274 | Replacing the last mapping keeps, section by section, what retained tables and the current table point to |
| Retirement.Purged | src/realm/alloc_slab.cpp:1457-1470 | A purge drops no mapping that a table it keeps points to; what is retained is right for the new youngest version if and only if no kept table is stamped later |
| Retirement.SafeToReplaceIff | src/realm/alloc_slab.cpp:1457-1470 | A replaced mapping outlives the retained tables that need it if and only if none of them is stamped later than the mapping will be |
| Retirement.DecreasingYoungestBreaks | src/realm/alloc_slab.cpp:1457-1470 | A run in which the youngest version goes from 5 to 3 and a purge unmaps what a kept table points to |
| Readers.SafeIffCovered | src/realm/alloc_slab.cpp:1260-1308 | From every state in which the readers have what they rely on: replacing the table or the last mapping leaves every live reader its table and addresses, under every later purge that spares it, if and only if each reader that uses the replaced table, or was or can be given the replaced mapping, is of a version up to the youngest recorded |
| Readers.LateReaderLoses | src/realm/alloc_slab.cpp:1268-1470 | A run in which the database was opened at version 5, and a live reader of version 10 loses its table and a mapping it was given to a purge that spares version 10 |
| Readers.TranslatedStays | src/realm/alloc.hpp:547-566 | In every run of readers, a growing file, new slabs and purges that spare the live versions, whose replacements meet that condition: a reader that began at a version and translated a ref in section k has an address where section k is mapped, shown as far as its version of the file goes, until it ends and under every purge that spares it |
| Readers.ReadersSafe | src/realm/alloc_slab.cpp:1185-1308 | In every such run no reader uses a freed table or reads past its end, and every live reader has its table, and for each section of its version, and each address it was given, the right section mapped far enough, and keeps them under every purge that spares it |
| Readers.StillShown | src/realm/alloc_slab.cpp:1212-1275 | When the file grows, the mappings of whole sections stay and that of a partial one exactly when it was extended; every mapping shows its section as far as the file goes; and no other mapping shows more or less than before |
| Readers.LiveIff | src/realm/alloc_slab.cpp:1457-1470 | In every run the live readers, which a purge spares, are those that began and did not end since |
| Readers.ApplyKeepsInv | src/realm/alloc_slab.cpp:1327-1470 | Each such event, in any order, keeps what the readers rely on |
| Readers.LastingIff | src/realm/alloc_slab.cpp:1457-1470 | A reader keeps what it relies on under every purge that spares it if and only if no stamp on its table or on a replaced mapping it needs is before its version |
| Readers.AssertionsHold | src/realm/alloc_slab.cpp:1262-1404 | In every run, covered or not: a mapping that is replaced has no cross-over mapping, and a cross-over mapping is made only where the reader's table shows the current mapping |
| Readers.GrowShape | src/realm/alloc_slab.cpp:1260-1275 | When the file grows, all entries of every table but its last stay the current mappings of their sections, no two mappings share an address, and the replaced mapping has no cross-over mapping |
| Readers.CrossedShape | src/realm/alloc_slab.cpp:1393-1420 | The entry of a section that a node leaves is never the last of its table, so the assertion on it holds |
| ReadOnlySpace.FreeChunk | src/realm/alloc_slab.cpp:527-560 | The assertions hold if and only if the ref is not null, a multiple of 8, and no byte is free already; then the runs stay maximal and cover exactly the chunk more |
| ReadOnlySpace.FreeAll | src/realm/alloc_slab.cpp:527-560 | Freeing chunks one by one succeeds if and only if all refs are nonzero multiples of 8 and no two chunks overlap, and then covers exactly their bytes |
| ReadOnlySpace.RunsUnique | src/realm/alloc_slab.cpp:527-560 | Maximal runs are determined by the bytes they cover |
| ReadOnlySpace.OrderIrrelevant | src/realm/alloc_slab.cpp:527-560 | Any order of freeing the same chunks gives the same map |
| RefTranslation.TranslationSafe | src/realm/alloc.cpp:116-152 | In every run of every number of threads, the address answered to a thread that asked for a node shows that whole node, in the primary mapping when it lies inside the section, and the assertion that a cross-over mapping is wanted for one address only never fails |
| RefTranslation.SoloFinishes | src/realm/alloc.cpp:116-152 | A thread that is in nobody's way reaches its answer by 14 steps of its own, from every state that the invariant admits |
| RefTranslation.FastAgain | src/realm/alloc.hpp:547-566 | In every run, once a node inside its section was translated with a table, every later translation of it with that table is answered by its first step |
| RefTranslation.XoverOnPage | src/realm/alloc_slab.cpp:1407-1414 | In every run the cross-over mapping starts on a page, and on the last one that does not start after its node |
| RefTranslation.LimitGrows | src/realm/alloc.cpp:125-133 | In every run limits only grow, never pass the node that crosses the section, and an entry with a cross-over mapping never changes again |
| RefTranslation.RaiseProgress | src/realm/alloc.cpp:127-133 | A turn of the compare-and-exchange loop that does not fail spuriously leaves it or has seen a higher limit, which stays within the section |
| RefTranslation.RaiseEnds | src/realm/alloc.cpp:127-133 | In every run, however threads interleave, a thread leaves the loop after at most as many turns of its own, spurious failures aside, as a section has bytes |
| RefTranslation.StepKeepsInv | src/realm/alloc_slab.cpp:1393-1420 | Every atomic step of any thread, also inside the mutex and while tables are copied, keeps the protocol's invariant |
| DirectAccess.SetGet | src/realm/array_direct.hpp:81-184 | Writing one element reads back, and disturbs no other element of the same or a narrower width |
| DirectAccess.BitWidthLeast | src/realm/array.cpp:193-211 | A value fits exactly the widths from its bit width on |
| DirectAccess.Int64Fits | src/realm/array.hpp:556-563 | The values of an int64_t are exactly those that fit 64 bits |
| PackedArray.Array.Insert | src/realm/array.cpp:419-469 | The element is inserted whatever widths are involved: widening and shifting happen in one buffer, from the top down, and no element is lost |
| PackedArray.Array.Set | src/realm/array.cpp:362-376 | Exactly one element changes, and the width becomes that of the value if the old one is too small for it |
| PackedArray.Array.EnsureMinimumWidth | src/realm/array.cpp:524-542 | Widening changes no element |
| PackedArray.Array.Widen | src/realm/array.cpp:533-541 | Converting in place from the last element down never overwrites one that is not yet converted |
| PackedArray.Array.Alloc | src/realm/node.cpp:69-124 | There is room for the elements and the bytes stored so far stay |
| PackedArray.Array.Add | src/realm/array.hpp:857-860 | Appends one element |
| PackedArray.Array.Truncate | src/realm/array.cpp:471-493 | Keeps the first elements; an emptied array is back at width 0 |
| PackedArray.Array.Move | src/realm/array.cpp:308-339 | Copies a range within the array, also for elements smaller than a byte and downwards over itself |
| PackedArray.Array.MoveTo | src/realm/array.cpp:341-360 | The tail goes to the end of the other array and leaves this one |
| PackedArray.Array.EraseRange | src/realm/array.hpp:874-884 | Removes exactly a range |
| PackedArray.Array.Erase | src/realm/array.hpp:862-872 | Removes exactly one element |
| PackedArray.Array.Adjust | src/realm/array.hpp:913-921 | Adds to exactly one element |
| PackedArray.UpperBoundWidth | src/realm/array.hpp:578-600 | The upper bound of a width needs exactly that width |
| PackedArray.Encoded | src/realm/array_direct.hpp:81-184 | Every sequence of values that fit a width is held by some bytes |
| Bounds.LowerBound | src/realm/array_direct.hpp:225-309 | The branch-free search, three steps a turn, ends at the first element not less than the value |
| Bounds.UpperBound | src/realm/array_direct.hpp:311-352 | Likewise for the first element greater than the value |
| FirstSetBit.FirstSetBit64Exact | src/realm/array_with_find.cpp:63-80 | The multiply-and-look-up finds the lowest set bit of every nonzero word |
| FirstSetBit.LowestLane | src/realm/array_with_find.hpp:464-476 | Its position divided by the lane width is the lowest nonzero lane |
| Find.TestZeroExact | src/realm/array_with_find.hpp:377-386 | The subtraction test is true if and only if some lane is zero, despite borrows between lanes |
| Find.FindZero | src/realm/array_with_find.hpp:389-437 | Bisection and stepping end at the first zero (or nonzero) lane |
| Find.ScanIsPrefix | src/realm/array_with_find.hpp:293-295 | A search reports the matches in order, cut off at the limit, and stops exactly when it is met |
| FindOptimized.Optimized | src/realm/array_with_find.hpp:296-374 | For every condition, width, value and range the reports and the stop are those of a plain scan of the elements, and every value handed over with an index is the element |
| FindOptimized.FindAllWillMatch | src/realm/array_with_find.hpp:279-292 | When all elements match, as many are reported as the limit leaves room for |
| FindOptimized.BoundsDecide | src/realm/array_with_find.hpp:311-323 | The bounds of the width decide a search only when every element agrees with the decision |
| FindOptimized.BoundsExact | src/realm/query_conditions.hpp:279-330 | They decide if and only if no value of the width, or every value of it, satisfies the condition |
| FindOptimized.CompareEquality | src/realm/array_with_find.hpp:565-639 | The search of words after an exclusive or equals the plain scan for Equal and NotEqual |
| FindOptimized.CompareRelation | src/realm/array_with_find.hpp:894-979 | The search by words equals the plain scan for Greater and Less, and the values handed over are the elements |
| FindOptimized.FindGtlt | src/realm/array_with_find.hpp:482-563 | One word lane by lane reports what a scan of its elements reports, with the elements' values |
| FindOptimized.FindGreaterFast | src/realm/array_with_find.hpp:451-479 | One word by its flags reports what a scan of its elements reports, and the lanes cut out as values are the elements |
| FindOptimized.FlagsExact | src/realm/array_with_find.hpp:451-463 | With clear top bits no carry leaves a lane, and a flag is set exactly for a greater element |
| FindOptimized.GreaterFast | src/realm/array_with_find.hpp:439-449 | The addition test is used for Greater exactly for values that leave room for it |
| FindOptimized.LessNeverFast | src/realm/array_with_find.hpp:439-449 | It is never used for Less |
| SumCount.Sum | src/realm/array.cpp:549-709 | The sum of the range if and only if every partial sum is an int64_t, which always holds below width 64 |
| SumCount.SumWords | src/realm/array.cpp:566-614 | Adding whole words is adding their elements one by one |
| SumCount.NarrowSumsFit | src/realm/array.cpp:549-709 | Below width 64 no partial sum of an array of any size overflows |
| SumCount.WideSumOverflows | src/realm/array.cpp:549-709 | A sum of two elements of width 64 that overflows |
| WordCount.SumWordExact | src/realm/array.cpp:579-612 | The halving sums of a word at widths 2 and 4, and the table look-ups at width 1, are the sum of its lanes |
| PopCount.PopCount64Exact | src/realm/utilities.cpp:197-207 | Eight look-ups add up to the number of set bits of every word |
| PopCount.TableExact | src/realm/utilities.cpp:181-189 | Each of the 256 entries is the number of set bits of its index |
| SumCount.Count | src/realm/array.cpp:712-886 | The count is the number of occurrences whenever the condition of exactness holds |
| SumCount.CountRight | src/realm/array.cpp:712-886 | What the word expressions add up to is the number of occurrences under that condition, for all contents |
| SumCount.CountWrong | src/realm/array.cpp:804-862 | Whenever the condition fails, some array of that width and size is counted wrongly |
| WordCount.CountWordExact | src/realm/array.cpp:751-862 | A word contributes the number of lanes that agree with the repeated pattern |
| WordCount.PatternLane | src/realm/array.cpp:804-862 | For a negative value a borrow makes every lane of the pattern but the lowest one too small |
| IntNull.ArrayIntNull.Insert | src/realm/array_integer.hpp:184-193 | Exactly one optional integer is inserted, from any state; it reads back unless it equals a null inside the bounds, which cannot happen while the null is the upper bound, and the null stays so if and only if the first free candidate of the seed does so, as user-space addresses ensure |
| IntNull.ArrayIntNull.Set | src/realm/array_integer.hpp:206-215 | Exactly one optional integer changes, with the same conditions |
| IntNull.ArrayIntNull.Add | src/realm/array_integer.hpp:195-204 | One optional integer is appended, with the same conditions |
| IntNull.ArrayIntNull.Get | src/realm/array_integer.hpp:222-229 | Reads the optional integer |
| IntNull.ArrayIntNull.ChooseRandomNull | src/realm/array_integer.cpp:88-104 | Ends after at most one more try than there are slots, with the first candidate from the seed that is neither incoming nor stored |
| IntNull.CandidatesDiffer | src/realm/array_integer.cpp:78-85 | No two of the first 2^25 candidates are equal |
| IntNull.CandidateNeeds64 | src/realm/array_integer.cpp:88-104 | From a user-space address no candidate within reach fits 32 bits |
| IntNull.ArrayIntNull.CanUseAsNull | src/realm/array_integer.cpp:106-109 | True if and only if no stored value would be taken for the null |
| IntNull.ArrayIntNull.ReplaceNullsWith | src/realm/array_integer.cpp:111-126 | Replaces the null in slot 0 and everywhere after it and nothing else |
| IntNull.ArrayIntNull.AvoidNullCollision | src/realm/array_integer.cpp:129-162 | Afterwards the null differs from the value, and no optional integer changed |
| IntNull.InnerNullCollides | src/realm/array_integer.cpp:129-162 | With a null inside the bounds, the value equal to it is stored and reads back as null |
| IntNull.NothingLost | src/realm/array_integer.cpp:129-162 | With the upper bound of the width as null every value is stored as itself |
| IntNull.RoomyLeast | src/realm/array_integer.cpp:138-147 | The width chosen for a value is the least that holds it and leaves the upper bound free for the null |
| IntNull.NarrowNullExample | src/realm/array_integer.cpp:129-162 | A seed outside user space whose first candidate leads there |
| IntNull.ArrayIntNull.EraseRange | src/realm/array_integer.hpp:258-261 | Removes exactly a range of optional integers |
| IntNull.ArrayIntNull.Move | src/realm/array_integer.hpp:269-272 | Copies a range of optional integers |
| IntNull.ArrayIntNull.MoveTo | src/realm/array_integer.cpp:216-223 | The tail goes to the end of the other array, whatever nulls the two use, and leaves this one; for any seeds no element turns into anything but null, and with user-space seeds none does |
| IntNull.ArrayIntNull.Clear | src/realm/array_integer.hpp:263-267 | Empty, with a null in place again |
| IntNull.FindFirst | src/realm/array.cpp:1266-1270 | The first slot from a start that holds the value, or the size |
| MixedArray.ArrayMixed.MoveTo | src/realm/array_mixed.cpp:243-268 | The tail of the values and of the keys goes to the end of the other array and leaves this one, although payloads are reindexed while stale words remain; no collection is destroyed |
| MixedArray.ArrayMixed.Erase | src/realm/array_mixed.cpp:229-241 | Exactly one value and its key go, and its collection is destroyed; the payload moved into its place is still found by its owner |
| MixedArray.ArrayMixed.EraseLinkedPayload | src/realm/array_mixed.cpp:397-459 | One payload goes, a collection is destroyed exactly when asked, and every other live word reads the same value |
| MixedArray.ArrayMixed.ReplaceIndex | src/realm/array_mixed.cpp:382-395 | The first word that owns the moved payload is repointed, and no other |
| MixedArray.ArrayMixed.Set | src/realm/array_mixed.cpp:62-90 | Exactly one value changes; a collection is destroyed and its key reset exactly when the two values are not both null, both integers, both booleans or both boxed with the same type |
| MixedEntries.TypeOfWord | src/realm/array_mixed.hpp:138-141 | The type in a word is that of the value it stands for, and none exactly for null |
| MixedEntries.InlineInts | src/realm/array_mixed.cpp:466-479 | Exactly the integers of 32 bits are kept in their words |
| MixedArray.ArrayMixed.AllWords | src/realm/array_mixed.cpp:461-573 | In every valid array of at most 2^24 - 1 elements all words and all numbers in the payload arrays are 64 bits wide, there being no more items than words |
| MixedArray.ArrayMixed.Insert | src/realm/array_mixed.cpp:92-108 | Exactly one value is inserted, with key 0 |
| MixedArray.ArrayMixed.Add | src/realm/array_mixed.cpp:52-60 | One value is appended, with key 0 |
| MixedArray.ArrayMixed.Store | src/realm/array_mixed.cpp:461-573 | The word and the extended payload arrays stand for the value |
| MixedArray.ArrayMixed.Get | src/realm/array_mixed.cpp:119-206 | Reads the value, dispatching on its type |
| MixedArray.ArrayMixed.SetKey | src/realm/array_mixed.cpp:309-317 | Exactly one key changes, also beyond the keys there are |
| MixedArray.ArrayMixed.GetKey | src/realm/array_mixed.cpp:319-327 | Reads a key, 0 beyond the keys there are |
| MixedArray.ArrayMixed.EnsureKeys | src/realm/array_mixed.cpp:286-297 | Keys are there afterwards and no element's key changes |
| MixedArray.ArrayMixed.MoveKeys | src/realm/array_mixed.cpp:252-263 | The keys from a place on are set in the other array and dropped here |
| MixedEntries.TakenOut | src/realm/array_mixed.cpp:397-459 | Taking an item out keeps words and items in bijection and every other value the same |
| Blob.AddAndRead | src/realm/array_blob.cpp:26-174 | Data of any size added without a terminator is read back byte for byte, split exactly when it exceeds one node |
| Blob.ArrayBlob.Replace | src/realm/array_blob.cpp:118-174 | The bytes of the range are replaced, in place or split over a new root; a root is made exactly when the result is too large, and then the terminator is lost |
| Blob.BlobReplace | src/realm/array_blob.cpp:66-116 | A split blob is replaced or extended, with no result exactly for an append that does not fill the room; the terminator is added only when all is replaced by data that fits one node |
| Blob.Append | src/realm/array_blob.cpp:77-105 | There is a result if and only if the data fills the room of the last chunk; then all chunks but the last are full and together hold the old bytes and the new |
| Blob.RemainingExact | src/realm/array_blob.cpp:84-88 | The remaining size is right if and only if the data fills the room of the last chunk |
| Blob.GetAt | src/realm/array_blob.cpp:26-64 | The bytes from a position to the end of its chunk and the next position, 0 at the end or past it |
| Blob.ReadAll | src/realm/array_blob.cpp:26-64 | Reading on from each returned position gives the whole content |
| Blob.ChunksUnique | src/realm/array_blob.cpp:66-116 | Bytes are split into full chunks in one way only |
| ShortStrings.RoundUpLeast | src/realm/array_string_short.cpp:39-55 | The block length is the least power of two that is large enough |
| ShortStrings.DecodeEncoded | src/realm/array_string_short.cpp:134-149 | A string is read back from its block, followed by a zero byte, and null as null or, where there are none, as the empty string |
| ShortStrings.ReblockedSame | src/realm/array_string_short.cpp:93-113 | A block made longer holds the same string or null |
| ShortStrings.ArrayStringShort.Widen | src/realm/array_string_short.cpp:83-125 | Making all blocks longer in place, from the last one down, keeps every string |
| ShortStrings.ArrayStringShort.Set | src/realm/array_string_short.cpp:72-149 | Exactly one string changes, also when all blocks grow |
| ShortStrings.ArrayStringShort.Insert | src/realm/array_string_short.cpp:152-171 | Exactly one string is inserted |
| ShortStrings.ArrayStringShort.Erase | src/realm/array_string_short.cpp:173-192 | Exactly one string goes |
| SmallBlobs.ArraySmallBlobs.Set | src/realm/array_blobs_small.cpp:53-67 | Exactly one piece and its null flag change and the offsets after it follow; the elements survive if and only if the bytes still fit one node |
| SmallBlobs.ArraySmallBlobs.Insert | src/realm/array_blobs_small.cpp:69-83 | Exactly one piece is inserted, with the same condition |
| SmallBlobs.ArraySmallBlobs.Add | src/realm/array_blobs_small.cpp:39-51 | One piece is appended, with the same condition; a blob that lost bytes never becomes whole again |
| SmallBlobs.LosesBytes | src/realm/array_blobs_small.cpp:39-51 | An element that fills a node and one byte more: the elements are lost |
| SmallBlobs.ArraySmallBlobs.Erase | src/realm/array_blobs_small.cpp:85-96 | Exactly one piece goes |
| SmallBlobs.ArraySmallBlobs.Get | src/realm/array_blobs_small.hpp:168-184 | Reads the piece between two offsets, or null |
| SmallBlobs.ReadBack | src/realm/array_blobs_small.hpp:168-184 | A stored value is read back as its bytes, with the terminator it was stored with, or as null |
| BigBlobs.ReadBackIff | src/realm/array_blobs_big.hpp:93-106 | A stored value is read back in one piece if and only if it fits one node |
| BigBlobs.ArrayBigBlobs.Set | src/realm/array_blobs_big.cpp:56-103 | Exactly one blob changes, and it stands for the value |
| BigBlobs.ArrayBigBlobs.Insert | src/realm/array_blobs_big.cpp:105-121 | Exactly one blob is inserted, and it stands for the value |
| BigBlobs.ArrayBigBlobs.Add | src/realm/array_blobs_big.cpp:40-54 | One blob is appended, and it stands for the value |
| Strings.ArrayString.Set | src/realm/array_string.cpp:141-164 | Exactly one string changes, whatever representation the leaf has or must be upgraded to; the strings survive if and only if those of a medium leaf fit one node, when they are copied from a small leaf and after the change, and a long string fits a node of its own; a small leaf without nulls shows null as the empty string |
| Strings.ArrayString.Insert | src/realm/array_string.cpp:166-183 | Exactly one string is inserted, likewise |
| Strings.ArrayString.Add | src/realm/array_string.cpp:119-139 | One string is appended, likewise |
| Strings.ArrayString.Erase | src/realm/array_string.cpp:241-257 | Exactly one string goes |
| Strings.ArrayString.Get | src/realm/array_string.cpp:185-200 | Reads the string, or null, from any representation |
| Strings.ArrayString.UpgradeLeaf | src/realm/array_string.cpp:378-460 | Changing the representation changes no string, and the new one has room for the incoming length, unless the strings of a small leaf do not fit the node of the medium one; exactly then they are lost |
| Strings.ArrayString.ToMedium | src/realm/array_string.cpp:416-436 | All strings of a small leaf in a medium one, which holds them if and only if they fit one node |
| Strings.TooManyStrings | src/realm/array_string.cpp:416-436 | 2^20 strings of 15 bytes in a small leaf, and 2^18 of 63 bytes in a medium one, do not fit |
| Strings.ArrayString.ToBig | src/realm/array_string.cpp:386-457 | All strings of a small or medium leaf in a big one |
| Strings.ArrayString.Enumerated | src/realm/array_string.cpp:53-66 | Attached to an enumerated leaf, each element reads as the key its index names |
| StringData.LessTotal | src/realm/string_data.hpp:249-273 | Of less, equal and greater exactly one holds, null and the empty string included |
| StringData.LessIs | src/realm/string_data.hpp:259-273 | Null comes first, a string before the longer ones that begin with it, and strings that differ in the order of their first different bytes |
| StringData.LessTransitive | src/realm/string_data.hpp:259-273 | The order of strings is transitive |
| StringData.LowerBound | src/realm/array_string.cpp:342-360 | The binary search ends at the first string not less than the value |
| StringEnum.Collect | src/realm/cluster_tree.cpp:849-878 | The keys are the strings of the column, each once, in order |
| StringEnum.Upgrade | src/realm/cluster.cpp:1028-1045 | The assertion holds if and only if no value exceeds all keys; each value among the keys gets the index of its key |
| StringEnum.EnumerateColumn | src/realm/cluster_tree.cpp:849-886 | Every leaf is turned into indices that stand for the same strings |
| StringEnum.IndexOrder | src/realm/cluster_tree.cpp:849-886 | Indices compare as the strings they stand for, across all leaves |
| StringEnum.EnumerateLeaf | src/realm/cluster.cpp:1028-1045 | The enumerated leaf reads as the leaf it replaces, whatever that one's representation |
| DeepWrite.WriteTree | src/realm/array.hpp:843-855 | The written ref stands for the same tree; it is the old ref exactly when the tree is read-only and only modified nodes are wanted; nothing in the file changes |
| DeepWrite.Write | src/realm/array.hpp:843-855 | Every node is kept or newly written, node by node |
| DeepWrite.WriteDeep | src/realm/array.cpp:283-305 | Children first, refs replaced, tagged and zero slots unchanged |
| DeepWrite.CopyMeansSame | src/realm/array.cpp:283-305 | A copy stands for the same tree as the original, for every tree |

## Left out

- Files, memory mapping, encryption and the file header: the addresses the system returns are parameters.
- Running out of memory, and the Invalid state of free space tracking that follows it: an assertion that fails is reported as a result instead.
- In-memory mode, and the exception for refs that overflow.
- SlabAlloc.DoAlloc: requires that the address handed out for a new slab overlaps no slab, which is what the system promises.
- TranslationSafe: covers the sequentially consistent interleavings of the atomic steps; weaker memory orders are not modelled.
- The SSE forms of the searches and sums, and `compare_leafs`: other code for the results proved here.
- FindOptimized.Optimized: what the query states do with the indices and values they are given is not modelled.
- WordCount.SumWordExact: models the table of `fast_popcount64`; where the compiler has an instruction for it, that is used instead.
- Copy on write, parents and accessors: an array owns its bytes here.
- ArrayString: `move`, `clear` and `find_first` are not modelled, and an enumerated leaf has keys of its own instead of those shared through the table's spec.
- Collect: keeps the keys as a sequence, not as a string leaf that changes its representation.
- ArrayMixed: `clear` is not modelled; destroying a collection is recorded, not carried out; floating-point and decimal payloads are the words they are stored as.
- ArrayMixed.MoveTo: requires keys for all elements or for none, because the source reads the key of every element it moves.
- ArrayMixed.Insert: requires that the keys, where there are any, reach as far as the place, because the source inserts a key there.
- ArrayMixed.Erase: requires that the element has a key where there are any, because the source erases it.
- ReadersSafe: takes it from the callers that a purge spares the versions of live readers, and from the system that nothing is mapped where something is.
- DeepWrite.Write: covers the deep form; the shallow one writes a single node.
- B+-trees, clusters, queries, transactions, sync and the object store.
