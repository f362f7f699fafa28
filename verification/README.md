# Verified model of Reko's core data structures

Reko is a decompiler. This project models the parts of its core on which the analyses rest and
proves, for all inputs and all runs, what those parts are for:

- **Control-flow surgery** (`ControlFlow`, `Runs`, `BlockContents`, `Blocks`). Blocks keep two redundant edge
  lists. `Blocks.Block` performs coalescing and jump redirection on the heap, with loops and
  aliasing, and is proved against functions on graph values. On those functions `ControlFlow`
  says exactly when the two lists stay in agreement, and `Runs` proves, with a small-step
  semantics of blocks, that executions keep their meaning.
- **Segment map** (`SortedLists`, `Layouts`, `LayoutSizes`, `SegmentMaps`). Two sorted indexes over the same
  segment objects, which are split and sized in place; the binary searches and the exhaustive
  scan; disjointness, conservation of coverage, mapping of linear addresses and back.
- **Byte order** (`Bits`, `Endian`, `EndianSequences`, `AdjacentOffsets`). Slices, sequences and
  swaps commute with reading units of any granularity from memory, in either order.
- **Storages** (`Storages`). Masks, intervals, offsets and covering of registers, register
  sequences, stack variables and flag groups agree with the bits that are denoted, or the exact
  condition under which they do.
- **Addresses** (`Addresses`, `CompactAddresses`, `CompactWide`, `AddressText`, `AddressReading`).
  The packed address refines the plain one over whole chains of operations, but for 63 and 64 bits;
  printing and parsing.
- **Instance cache** (`TypeComparisons`, `Descents`, `InstanceCaches` and the other modules named
  `Instance...`). The loop that finds or adds a concrete intrinsic, and the comparison of types it
  rests on, which remembers its results in a dictionary all threads share, as interleaved steps of
  any number of calls. The model says exactly which calls can take different types for equal, and
  bounds the steps of every call.
- **Identifier binders** (`FirstUses`, `StorageShapes`, `Binders`, `BinderAnswers`). The dictionary
  binder and the list-scanning frame are both the same table of first uses; the model says exactly
  for which requests they answer alike.
- **Script reloads, hex patterns, most recently used items** (`ScriptReloads`,
  `ScriptProgress`, `ScriptWatchers`, `HexPatterns`, `PatternTexts`, `MruLists`).

Code that updates objects is modelled by classes and methods, proved against functions; code that
computes values by functions. Unsigned words are natural numbers, and truncation and wrap-around
are written out with `Low(x, n)`, the low n bits of x.

Where the code differs from what its documentation says, the model follows the code, and the
lemma says exactly when the documented property holds:

- `ReplaceJumpsTo` replaces one entry of `next.Pred` per predecessor, so the edge lists can end up
  in disagreement (`ControlFlow.ReplaceJumpsToConsistentIff`, `ControlFlow.ReplaceJumpsToLosesAJump`).
- `MakeSlice` describes its offset as a number of addressable units and treats it as bits: the
  description holds exactly for offset 0 and for units of one bit (`Endian.RightInUnitsIff`,
  `Endian.SecondByteMissed`).
- The search and the scan of the segment map disagree on empty segments
  (`Layouts.LookupsAgreeIff`), and `IsInRange` wraps at the top of the address space
  (`Layouts.InRangeIff`).
- `SequenceStorage.Covers` and `OverlapsWith` look at the first element of a domain only, while
  `OffsetOf` looks at all of them (`Storages.CoversMatchesOffsetIff`).
- `CompactAddress` keeps a whole field of a new offset, not just the bits of the address's width
  (`CompactAddresses.NewOffsetRefinesIff`).
- A packed 64-bit address keeps the low five bits of its old offset when it is given a new one, unless
  the old offset is a multiple of 4: adding 1 to the address 1 leaves it where it is
  (`CompactWide.WideNewOffsetIff`, `CompactWide.OnePlusOneStays`).
- The comparison of types publishes a provisional result of 0 while it runs. A call that reads it
  takes two types for equal that are not, which happens in some run exactly if calls clash
  (`InstanceSharing.SomeRunMisreadsIff`), and can then get an instance for another type: where keys
  differ in one place, exactly if calls clash (`InstanceSharing.SafeIff`, `InstanceCases.HarmfulClash`).
  Elsewhere a clash need not do harm (`InstanceCases.HarmlessClash`).
- The key of the instance cache leaves out the pointer size
  (`InstanceOutcomes.SizesRespectedIff`, `InstanceSizes.SizesRespectedInAllRunsIff`), and its hash
  leaves out the types.
- The dictionary binder fails on a sequence that contains a sequence of fewer than two elements,
  because it cannot hash it; the frame does not (`Binders.BinderCannotHash`).
- Taking a script off a project's list leaves its watcher behind, until a project that lists the
  script again is replaced by one that does not (`ScriptWatchers.RemovalLeavesWatcher`).

## Model

| member | source | states |
|---|---|---|
| `ControlFlow.CoalesceConsistentIff` | src/Core/Block.cs:132-167 | Coalescing keeps occurrences in `Succ` equal to occurrences in `Pred` for every pair of blocks exactly when nothing but edges from `block` to `next` leaves `block` or enters `next` |
| `ControlFlow.CoalesceCounts` | src/Core/Block.cs:132-167 | The number of entries for every pair of blocks, in both kinds of list, after coalescing |
| `BlockContents.CoalesceConservesIff` | src/Core/Block.cs:132-144 | Every statement occurs in the blocks as often after coalescing as before, exactly if the blocks are two or there is nothing to lose |
| `BlockContents.CoalesceContents` | src/Core/Block.cs:132-144 | Which block has which statements afterwards: the absorbed one has nothing left |
| `BlockContents.CoalescePlaces` | src/Core/Block.cs:152-167 | A predecessor is renamed where it stands in its list |
| `BlockContents.ReplaceJumpsToPlaces` | src/Core/Block.cs:188-199 | Redirecting touches, of all predecessor entries, those of `next` that name `block`, and empties the list of `block` |
| `BlockContents.ReplaceJumpsToContents` | src/Core/Block.cs:175-200 | Redirecting leaves all statements alone |
| `BlockContents.RemoveEdgePlaces` | src/Core/Graphs/BlockGraph.cs:90-97 | Removing an edge takes its first entry from each list, if both have one, and changes nothing otherwise |
| `BlockContents.RemoveEdgeCounts` | src/Core/Graphs/BlockGraph.cs:90-97 | The number of entries for every pair of blocks after removing an edge |
| `ControlFlow.ReplaceJumpsToConsistentIff` | src/Core/Block.cs:175-200 | The lists agree afterwards for every pair but (block, next) exactly when `block` had no more incoming edges from elsewhere than edges to `next`; for every pair only if nothing jumped to it |
| `ControlFlow.ReplaceJumpsToCounts` | src/Core/Block.cs:175-200 | The number of entries for every pair of blocks after redirecting, including how many predecessor entries find a place |
| `ControlFlow.ReplaceJumpsToLosesAJump` | src/Core/Block.cs:188-196 | A graph with two jumps to one empty block whose lists disagree afterwards |
| `ControlFlow.ReplaceJumpsToRetargets` | src/Core/Block.cs:178-187 | No successor list names `block` any more, entries for it name `next`, and all other positions are unchanged |
| `ControlFlow.RedirectRemoveAndDropIff` | src/Decompiler/Structure/ControlFlowGraphCleaner.cs:122-132 | Redirecting jumps around a block whose one edge goes to `next`, removing that edge and dropping the block leaves a closed, consistent graph exactly when it had at most one incoming edge |
| `ControlFlow.ReplaceAndDropIff` | src/Decompiler/Structure/ControlFlowGraphCleaner.cs:144-151 | The same without removing the edge, as the second call site does: exactly when the block had one incoming edge |
| `Runs.CoalescePreservesRuns` | src/Core/Block.cs:132-144 | From every block but `next`, the executed statements and branch choices, and the ways to halt, are the same before and after coalescing |
| `Runs.ReplaceJumpsToPreservesRuns` | src/Core/Block.cs:175-200 | Redirecting jumps around an empty block keeps the runs from every block |
| `Runs.Forward` | src/Core/Block.cs:132-200 | Each run before either surgery has a run after it that shows the same |
| `Runs.Backward` | src/Core/Block.cs:132-200 | Each run after either surgery comes from a run before it that shows the same |
| `Runs.VisibleDeterminesRun` | src/Core/Block.cs:132-200 | What a run shows determines it, up to silent steps at its end, so the comparison of runs leaves nothing open |
| `Blocks.Block.ReplaceJumpsFrom` | src/Core/Block.cs:152-167 | On the heap: all blocks of the procedure are left as the graph function says, and the result tells whether an entry was replaced |
| `Blocks.Block.Coalesce` | src/Core/Block.cs:132-144 | On the heap: `next` is left without predecessors, successors and statements, which `block` takes over, the statements of all other blocks stay, and all lists are left as the graph function says |
| `Blocks.Block.ReplaceJumpsTo` | src/Core/Block.cs:175-200 | On the heap: all blocks are left as the graph function says, with self-loops and repeated predecessors; the result tells whether an entry was replaced |
| `SortedLists.TryGetLowerBound` | src/Core/Collections/SortedListEx.cs:42-72 | The search finds the value at the greatest key not above the given one |
| `SortedLists.TryGetUpperBoundKey` | src/Core/Collections/SortedListEx.cs:171-201 | The search finds the least key not below the given one |
| `Layouts.PlaceKeepsGoodIff` | src/Core/SegmentMap.cs:175-222 | An addition keeps segments strictly sorted and disjoint exactly when its start is covered already or its effective range fits the gap it starts in |
| `Layouts.RunKeepsGood` | src/Core/SegmentMap.cs:76-86 | Every run of such additions keeps the layout strictly sorted and disjoint |
| `Layouts.UnsizedFitsBelow` | src/Core/SegmentMap.cs:208-222 | An unsized segment below another one always fits |
| `Layouts.UnsizedFitsOnTop` | src/Core/SegmentMap.cs:208-222 | An unsized segment above all others that starts inside its memory area fits, and ends where the area does |
| `Layouts.SplitConserves` | src/Core/SegmentMap.cs:175-206 | A split conserves covered addresses and total size; an address stays in its segment or, from the split on, moves to the upper part |
| `Layouts.InsertionAddsRange` | src/Core/SegmentMap.cs:175-206 | Any other addition adds exactly its effective range |
| `Layouts.LookupsAgreeIff` | src/Core/SegmentMap.cs:275-289 | The search and the scan select the same segment for every address, or both none, exactly when no segment is empty |
| `Layouts.FindIs` | src/Core/SegmentMap.cs:322-344 | Among sorted, disjoint segments the search finds the one that starts at or contains the address, and no other |
| `Layouts.ScanIs` | src/Core/SegmentMap.cs:275-289 | The scan finds the first segment that contains the address |
| `Layouts.InRangeIff` | src/Core/Loading/ImageSegment.cs:255-259 | The range test accepts the addresses of a segment exactly when the segment ends inside the address space |
| `Layouts.PlaceAllStarts` | src/Core/SegmentMap.cs:76-86 | Segments start exactly where segments were added, whatever was split, and stay strictly sorted |
| `SegmentMaps.SegmentMap.AddSegment` | src/Core/SegmentMap.cs:175-206 | Both indexes stay sorted over the same objects; the layout becomes what the function says; a segment that has a size keeps it; which object is returned, and that a split makes a new one with the name, start and memory of the argument |
| `LayoutSizes.SizedKeepsSize` | src/Core/SegmentMap.cs:208-222 | A segment that has a size, at an uncovered start, covers exactly that much in addition, and no other segment changes |
| `LayoutSizes.UnsizedReachesNext` | src/Core/SegmentMap.cs:208-222 | One without a size covers everything up to the next segment, as far as 32 bits go |
| `LayoutSizes.UnsizedReachesEnd` | src/Core/SegmentMap.cs:208-222 | Above all others it covers everything up to the end of its memory area, as far as 32 bits go |
| `SortedLists.AddIff` | src/Core/SegmentMap.cs:180-181 | An addition is refused exactly if the key is there, and otherwise adds that entry and no other |
| `SegmentMaps.SegmentMap.AddAll` | src/Core/SegmentMap.cs:76-86 | Constructing a map adds the segments one by one, also when an object occurs twice; both indexes stay sorted over the same objects, and the segments are disjoint whenever each addition could be placed |
| `SegmentMaps.SegmentMap.EnsureSegmentSize` | src/Core/SegmentMap.cs:208-222 | A size that is given is kept; an unsized segment extends to the next one or to the end of its memory area |
| `SegmentMaps.SegmentMap.TryFindSegment` | src/Core/SegmentMap.cs:322-332 | The lookup by address returns the object at the place the function finds |
| `SegmentMaps.SegmentMap.TryFindLinear` | src/Core/SegmentMap.cs:334-344 | The lookup by linear value, in the other index, returns that same object |
| `SegmentMaps.SegmentMap.MapLinearAddressToAddress` | src/Core/SegmentMap.cs:275-289 | The scan finds the first segment that contains the value, and fails if there is none |
| `SegmentMaps.MappedAddressesLineariseIff` | src/Core/SegmentMap.cs:275-289 | Every linear address of a segment, up to the top of the address space, is mapped to an address that linearises back to it exactly when the segment fits the width of its offsets |
| `SegmentMaps.BuildAndLookUp` | src/Core/SegmentMap.cs:275-344 | In a map built from placeable segments with sizes, the lookup by address, the lookup by linear value and the scan select the same segment or all fail, and the mapped address linearises back if the segment fits its width |
| `Layouts.RunKeepsNonEmpty` | src/Core/SegmentMap.cs:175-222 | Every run of placeable segments that have or find a size leaves no segment empty |
| `Endian.SliceCommutesWithRead` | src/Core/EndianServices.cs:262-288 | For both orders, every memory and every aligned range: if the wide read succeeds then reading the sliced access succeeds and gives the bits of the range |
| `Endian.AlwaysRightIff` | src/Core/EndianServices.cs:367-374 | For whole units in and out, the offset formulas are right for every content exactly when the range starts at a unit |
| `Endian.SliceFedBack` | src/Core/EndianServices.cs:356-374 | Slicing an access by the slice made for a memory offset accesses the memory at exactly that offset, counted in units, with the width of the slice |
| `Endian.RightInUnitsIff` | src/Core/EndianServices.cs:169-178 | For whole units, the slice is the value stored `loOffset` units beyond the start, for every content, exactly when the offset is 0 or units are bits |
| `Endian.SecondByteMissed` | src/Core/EndianServices.cs:356-359 | Two bytes for which the slice made for offset 1 is not the second byte |
| `Endian.MakeSliceReads` | src/Core/EndianServices.cs:465-471 | The bits of the slice made for a memory offset are the value stored at that offset |
| `EndianSequences.SequenceIsWideRead` | src/Core/EndianServices.cs:347-354 | Joining any number of adjacent ascending reads, of any widths, is the one wide read |
| `EndianSequences.AdjacentOffsetsJoin` | src/Core/EndianServices.cs:473-479 | Two reads at offsets that count as adjacent are one read of twice the size |
| `AdjacentOffsets.OffsetsAdjacentIff` | src/Core/EndianServices.cs:361-364 | For all offsets, negative ones included, both orders and all sizes: two offsets count as adjacent exactly if, whatever memory holds, the reads there are one read of twice the size at the lower one |
| `Endian.ReadsRunIff` | src/Core/EndianServices.cs:230 | A run of units is read wherever it stands in memory, up to its end, and nothing beyond |
| `EndianSequences.StackSliceHoldsRange` | src/Core/EndianServices.cs:489-494 | The slice of a stack variable holds the bits of the range |
| `EndianSequences.SwapByGroups` | src/Core/EndianServices.cs:238-251 | The nested loops reverse each group; a size that does not divide the length, or is not positive, is refused |
| `EndianSequences.SwapTwice` | src/Core/EndianServices.cs:238-251 | Swapping is its own inverse |
| `EndianSequences.SwappedGroupReads` | src/Core/EndianServices.cs:238-251 | A swapped group read in one order is the original group read in the other |
| `Storages.CoversIff` | src/Core/Storage.cs:727-733 | Registers cover each other exactly within one domain and when their intervals contain each other |
| `Storages.WholeRegister` | src/Core/Storage.cs:727-733 | A register of 64 bits covers every register of its domain, and its slice is the contents |
| `Storages.OverlapsIff` | src/Core/Storage.cs:801-810 | Registers overlap exactly within one domain and when their masks intersect |
| `Storages.ExceedsIff` | src/Core/Storage.cs:747-753 | A register exceeds another exactly when it is of its domain and the other does not cover it |
| `Storages.SliceOfSlice` | src/Core/Storage.cs:791-798 | Slicing a register and then, at its offset, a covered register is slicing that register |
| `Storages.ComputeOffsetOf` | src/Core/Storage.cs:1018-1030 | The loop over a sequence computes the offset within the least significant element that has the register |
| `Storages.OffsetFindsValue` | src/Core/Storage.cs:1018-1030 | Whenever the offset is not -1, the bits there, in the most-significant-first concatenation of any contents, are the value of the register |
| `Storages.OffsetIsInLast` | src/Core/Storage.cs:1018-1030 | The offset is that within the least significant element that has the register, above the bits of the elements after it |
| `Storages.ComputeCovers` | src/Core/Storage.cs:965-977 | The loop over a sequence is decided by the first element of the register's domain |
| `Storages.ComputeOverlaps` | src/Core/Storage.cs:1033-1046 | So is the loop that looks for an overlap |
| `Storages.CoversMatchesOffsetIff` | src/Core/Storage.cs:965-977 | Covering and having an offset agree for every register exactly when the first element of each domain covers the later ones of that domain; distinct domains are a case |
| `Storages.OverlapsMatchesElementsIff` | src/Core/Storage.cs:1033-1046 | A sequence overlaps a register exactly when one of its elements does, for every register, under that same condition and no other |
| `Storages.HalvesDisagree` | src/Core/Storage.cs:965-977 | The two halves of one register: the lower one has an offset and is not covered |
| `Storages.StackCoversMatchesOffsetIff` | src/Core/Storage.cs:1140-1172 | Covering and having an offset agree for every stack variable exactly when this one is a whole number of bytes |
| `Storages.StackOffsetFindsValue` | src/Core/Storage.cs:1140-1148 | The offset finds the bytes of the inner variable in the little-endian value of the outer one |
| `Storages.FlagExceedsIff` | src/Core/Storage.cs:288-293 | A flag group exceeds another exactly when it is of the same register and the other does not cover it |
| `Storages.FlagCoversIff` | src/Core/Storage.cs:272-277 | A flag group covers another exactly when it is of the same register and has all its bits |
| `Storages.FlagOverlapsIff` | src/Core/Storage.cs:310-315 | Flag groups overlap exactly when they have a bit of one register in common |
| `Addresses.AddLinearIff` | src/Core/Address.cs:601-604 | For every address and every distance, moving the address moves its linear value by as much, in 64-bit arithmetic, exactly when the offset does not run out of its width |
| `Addresses.FloorMultipleIsProduct` | src/Core/Address.cs:126-131 | The product of the alignment and the truncated quotient, which the model of `Align` reaches by subtraction |
| `Addresses.AlignIff` | src/Core/Address.cs:126-131 | Aligning gives the address at the least multiple of the alignment that is not below it, an aligned address itself, exactly if neither 64 bits nor the size of the address run out |
| `CompactAddresses.PackedAlign` | src/Core/Address.cs:788-794 | So it does for the packed address, if the field holds the multiple |
| `Addresses.SelectorContribution` | src/Core/Address.cs:646-650 | What the selector adds to the linear value, for each kind of address |
| `CompactAddresses.PackedRefinesPlain` | src/Core/Address.cs:706-834 | After any chain of fitting `Add`, `Align` and `NewOffset`, offset, selector, linear value and printed digits of the packed and the plain address agree, and the same operations are refused |
| `CompactAddresses.PackRepresents` | src/Core/Address.cs:851-934 | The packed constructors hold exactly the kind, size, selector and offset they are given, for sizes of up to 62 bits |
| `CompactAddresses.NewOffsetRefinesIff` | src/Core/Address.cs:743-750 | After a new offset, offset, selector, linear value and printed width of the two forms agree exactly when nothing of the packed field lies above the width, nor anything of the width above what the field can hold |
| `CompactAddresses.OpRefinesIff` | src/Core/Address.cs:782-794 | The same for each operation |
| `CompactAddresses.LinearOffsetIff` | src/Core/Address.cs:718-721 | A linear offset is read back from the packed word exactly when it has at most 51 bits |
| `CompactWide.WideNewOffsetIff` | src/Core/Address.cs:743-750 | A packed address of 63 or 64 bits takes a new offset over exactly if its old one was a multiple of 4 or agrees with it in the low five bits |
| `CompactWide.WideNewOffset` | src/Core/Address.cs:684-690 | Otherwise the low five bits of the old offset stay |
| `CompactWide.OnePlusOneStays` | src/Core/Address.cs:782-786 | Adding 1 to the packed 64-bit address 1 gives that address again |
| `CompactWide.WideOffsetIff` | src/Core/Address.cs:718-721 | An offset put into such an address is read back unchanged exactly if its two top bits are alike |
| `CompactWide.WideView` | src/Core/Address.cs:725-741 | Such an address has no selector, sixteen hexadecimal digits, and its offset as linear address |
| `AddressText.GenerateName` | src/Core/Address.cs:617-637 | The digit loop appends exactly the digits of the offset, most significant first, after the selector |
| `AddressText.DigitsDenoteOffsetIff` | src/Core/Address.cs:617-637 | For any width and any offset, the digits read in base 8 or 16 are the offset exactly when it has no more bits than the digits |
| `AddressText.DigitsDenoteOffset` | src/Core/Address.cs:617-637 | In particular for every offset that fits its width |
| `AddressText.PackedTextAgrees` | src/Core/Address.cs:757-799 | The packed and the plain address print alike after any chain of fitting operations |
| `AddressText.PrintThenParse` | src/Core/Address.cs:514-569 | Parsing undoes printing for all 16-, 32- and 64-bit linear addresses |
| `AddressReading.LinearTextReads` | src/Core/Address.cs:613-637 | A hexadecimal or octal address within its size is printed as the digits of its offset in that base, as many as its size takes |
| `AddressReading.SegmentedTextReads` | src/Core/Address.cs:613-637 | A segmented address is printed as its selector, a colon and its offset, in four upper-case hexadecimal digits each |
| `AddressReading.TextReads` | src/Core/Address.cs:618-637 | A name consists of the prefix, selector and separator if there is a selector, and the low bits of the offset in digits |
| `AddressReading.TryParseIff` | src/Core/Address.cs:514-569 | A text is read exactly if it is a hexadecimal number in either case, with any number of leading zeros, that fits the bits |
| `AddressReading.DigitValueIff` | src/Core/Address.cs:514-569 | The digits are the sixteen, in either case, and nothing else |
| `TypeComparisons.Compare` | src/Core/Types/DataTypeComparer.cs:76-99 | Without other threads, the remembered comparison gives 0 for types of one structure and no others |
| `TypeComparisons.AdvanceOk` | src/Core/Types/DataTypeComparer.cs:85-97 | In every interleaving types of one structure compare as 0; as long as nobody reads the provisional result for different types, only those do |
| `TypeComparisons.AdvanceShrinks` | src/Core/Types/DataTypeComparer.cs:85-97 | Every step of a comparison brings it closer to its end, whatever other threads put into the dictionary |
| `InstanceCaches.SharesIff` | src/Core/IntrinsicProcedure.cs:189-203 | In every interleaving of any number of calls the cache has at most one entry for a key, and calls return one instance exactly for equal keys if and only if each got an instance for its own types |
| `InstanceCaches.CleanRunsShare` | src/Core/IntrinsicProcedure.cs:189-203 | That is so in every interleaving in which nobody reads the provisional result for two different types |
| `InstanceRuns.SafeWithoutClash` | src/Core/IntrinsicProcedure.cs:189-203 | Whatever the keys, equal keys share and different keys do not, in every interleaving, if no two calls can come to compare the same two different types that have not been compared before; this can be told before any of them starts |
| `InstanceSharing.SomeRunMisreadsIff` | src/Core/Types/DataTypeComparer.cs:85-97 | Some run takes two different types for equal, because their comparison is under way elsewhere, exactly when two calls can come to compare them |
| `InstanceSteps.ClashBreaksSharing` | src/Core/IntrinsicProcedure.cs:189-203 | If two calls can come to compare the whole types of their keys, whatever those are made of, there is an interleaving in which one of them gets an instance for a type it did not ask for |
| `InstanceSharing.SafeIff` | src/Core/IntrinsicProcedure.cs:305-320 | Where different keys of one intrinsic differ in one place, at any depth of any of their types, equal keys share and different keys do not, in every interleaving, exactly when no calls clash |
| `InstanceSharing.SimpleTypesDifferOnce` | src/Core/IntrinsicProcedure.cs:305-320 | Keys of one type that is not made of others are a case of this |
| `InstanceCases.HarmfulClash` | src/Core/IntrinsicProcedure.cs:189-203 | Three calls of one intrinsic, for one type and twice for another, clash, and some interleaving of them does not share rightly |
| `InstanceCases.HarmlessClash` | src/Core/IntrinsicProcedure.cs:305-320 | With a second type that differs too, and was compared before, they clash just so and share rightly in every interleaving |
| `InstanceCases.SafeIfKnownApart` | src/Core/IntrinsicProcedure.cs:305-320 | Sharing is right in every interleaving, clash or not, if all different keys of an intrinsic differ at a position whose types were compared before |
| `InstanceCaches.RunExtends` | src/Core/IntrinsicProcedure.cs:189-203 | An entry never changes once added, and a finished call keeps its result |
| `InstanceBounds.LookupsBounded` | src/Core/IntrinsicProcedure.cs:195-201 | In every interleaving a call starts one lookup, and one more for each entry that is added, of which there are no more than calls; and two at most, with one more for each time an addition mistakes its key for another |
| `InstanceBounds.StepsBounded` | src/Core/IntrinsicProcedure.cs:195-201 | Every run ends: in every interleaving a call takes a bounded number of steps that change anything; the bound follows from the number of calls and the sizes of their types |
| `InstanceOutcomes.SearchShrinks` | src/Core/IntrinsicProcedure.cs:195-201 | Every step of a search brings it closer to its end, whatever the others do in between |
| `InstanceOutcomes.NeverStuck` | src/Core/IntrinsicProcedure.cs:195-201 | As long as a call is unfinished some call can take a step |
| `InstanceOutcomes.ThrownIff` | src/Core/ProcedureBase.cs:187-218 | A call that can build an instance returns; one whose signature or number of types forbids it, or that is concrete, throws; one that only lacks a pointer size returns if it finds an instance |
| `InstanceOutcomes.LoneCallReturnsIff` | src/Core/ProcedureBase.cs:189-200 | A call that is alone returns exactly for a generic intrinsic that is no concrete instance, has a usable signature, as many types as generic arguments, and a pointer size where one is needed; it then has an instance for just these |
| `InstanceOutcomes.LoneCallFinishes` | src/Core/IntrinsicProcedure.cs:189-203 | It is finished after three steps |
| `InstanceIdentity.EntriesHoldDifferentInstances` | src/Core/IntrinsicProcedure.cs:213-220 | In every interleaving no two entries of the cache hold one instance: each one built is another object |
| `InstanceOutcomes.SizesRespectedIff` | src/Core/IntrinsicProcedure.cs:189-203 | Where calls share as they should, every returned call has an instance made for its own pointer size exactly when equal keys came with equal sizes |
| `InstanceSizes.SizesRespectedInAllRunsIff` | src/Core/IntrinsicProcedure.cs:189-203 | Where no calls clash, that is so in every interleaving exactly when equal keys come with equal sizes, or none of their calls can build an instance |
| `InstanceOutcomes.CacheHoldsRequestedKeys` | src/Core/IntrinsicProcedure.cs:42-43 | A finished run in which calls share as they should leaves an entry for each key that a call could build an instance for, and for no other |
| `InstanceCaches.KeysEqual` | src/Core/IntrinsicProcedure.cs:307-320 | Without other threads, the comparer's loop decides equality of the intrinsic and of the structures of the types |
| `InstanceCaches.GetHashCode` | src/Core/IntrinsicProcedure.cs:322-330 | The hash is determined by the intrinsic and the number of types, so equal keys hash equally and keys that differ in the types alone collide |
| `StorageShapes.SameIff` | src/Core/Storage.cs:980-992 | Equality of storages, nested sequences included, is equality of what it can see of them, hence an equivalence; temporaries and memory are equal only to themselves |
| `StorageShapes.ArraysEqual` | src/Core/Storage.cs:184-198 | Arrays are equal exactly when they have equal elements in the same order |
| `StorageShapes.SameArraysHashEqually` | src/Core/Storage.cs:204-212 | Equal arrays hash equally, or hashing fails for both |
| `StorageShapes.SameStoragesHashEqually` | src/Core/Storage.cs:1009-1015 | Equal storages hash equally, or hashing fails for both |
| `StorageShapes.GetArrayHashCode` | src/Core/Storage.cs:204-212 | The loop computes the hash of the array, and fails exactly when that of an element does |
| `StorageShapes.HashableIff` | src/Core/Storage.cs:1009-1015 | Hashing a storage fails exactly for a sequence that has fewer than two elements or cannot hash one of the first two |
| `FirstUses.AnswersEqualIff` | src/Core/StorageBinder.cs:54-148 | Two requests of a run get the same identifier exactly when they name the same key; a temporary shares with none |
| `FirstUses.TableListsNewEntries` | src/Core/StorageBinder.cs:54-148 | The list grows only on first use, in request order, and not for requests that fail |
| `FirstUses.SameAnswersIff` | src/Core/Frame.cs:212-345 | Two such tables answer a run alike exactly when they agree on which requests fail and on which share a key |
| `Binders.BindersAgreeIff` | src/Core/StorageBinder.cs:54-148 | For every run of requests, the dictionary binder and the frame fail at the same ones and answer the others with the same entries, three further on in the frame, exactly when no two requests use different objects for one register, all flag groups have bits, and all sequences can be hashed |
| `BinderAnswers.SameIdentifierIff` | src/Core/StorageBinder.cs:54-148 | Two requests get one identifier exactly if they are for one storage: the dictionaries go by the bits of registers, the frame by their objects, and temporaries are never shared |
| `BinderAnswers.EqualRegistersIff` | src/Core/Storage.cs:756-762 | Registers count as equal exactly if each covers the other |
| `Binders.BinderCannotHash` | src/Core/StorageBinder.cs:135-148 | A sequence at which the dictionary binder fails and the frame does not |
| `Binders.RunBoth` | src/Core/Frame.cs:77-97 | The same for the two classes on the heap, run side by side |
| `Binders.StorageBinder.EnsureRegister` | src/Core/StorageBinder.cs:118-126 | The identifier at the slot of the register's shape, added at the end on first use; the dictionaries still know exactly what a scan would find |
| `Binders.StorageBinder.EnsureFlagGroup` | src/Core/StorageBinder.cs:73-86 | The same for flag groups, through the nested dictionaries |
| `Binders.StorageBinder.EnsureSequence` | src/Core/StorageBinder.cs:135-148 | The same for sequences of storages; it fails, and changes nothing, exactly when the elements cannot be hashed |
| `Binders.StorageBinder.EnsureFpuStackVariable` | src/Core/StorageBinder.cs:89-98 | The same for FPU stack variables |
| `Binders.StorageBinder.CreateTemporary` | src/Core/StorageBinder.cs:54-61 | A new identifier at the end, numbered by its position |
| `Binders.Frame.FindSequence` | src/Core/Frame.cs:433-451 | The nested loops find the first identifier for equal elements |
| `Binders.Frame.FindRegister` | src/Core/Frame.cs:517-525 | The scan finds the first identifier for the register object |
| `Binders.Frame.EnsureRegister` | src/Core/Frame.cs:294-303 | The identifier at the slot of the register object, added at the end on first use |
| `Binders.Frame.EnsureFlagGroup` | src/Core/Frame.cs:258-269 | The same for flag groups; a group without bits is an error and changes nothing |
| `Binders.Frame.EnsureSequence` | src/Core/Frame.cs:324-345 | The same for sequences |
| `Binders.Frame.EnsureFpuStackVariable` | src/Core/Frame.cs:277-287 | The same for FPU stack variables |
| `Binders.Frame.CreateTemporary` | src/Core/Frame.cs:212-219 | A new identifier at the end, numbered by its position |
| `ScriptReloads.NoChangeIsLost` | src/Gui/ProjectFilesWatcher.cs:154-188 | In every interleaving, each handled change event has a reload attempt that began after it or is on its way; when nothing is left to do, the last attempt for each path came after its last change |
| `ScriptProgress.EveryChangeIsReloaded` | src/Gui/ProjectFilesWatcher.cs:154-175 | Every run can be continued, by the steps of the events raised in it alone and in a bounded number of them, until all are handled; the last attempt for each path then came after the last change |
| `ScriptProgress.AdvanceIsProgress` | src/Gui/ProjectFilesWatcher.cs:154-175 | Every step of an event that is not handled brings it closer to its end and leaves the others where they are |
| `ScriptProgress.StepsBounded` | src/Gui/ProjectFilesWatcher.cs:154-175 | In every interleaving each change costs five steps at most |
| `ScriptProgress.AttemptsAreCounted` | src/Gui/ProjectFilesWatcher.cs:172-188 | What the model counts as attempted is the number of changes before the last reload of the path began |
| `ScriptProgress.ChangesAreCounted` | src/Gui/ProjectFilesWatcher.cs:154-158 | What it counts as changes is their number |
| `ScriptReloads.TimersMatchMarks` | src/Gui/ProjectFilesWatcher.cs:154-174 | A path is marked exactly while one task holds its timer, and unmarking an elapsed path never fails |
| `ScriptWatchers.WatchedIff` | src/Gui/ProjectFilesWatcher.cs:82-136 | A script is watched exactly when it is outside archives, came with a project or was added to one, and was not on the list of a project when that was replaced by one without it |
| `ScriptWatchers.AdditionsStayInStep` | src/Gui/ProjectFilesWatcher.cs:82-136 | As long as lists of scripts are only added to, the watched scripts are those of the project outside archives |
| `ScriptWatchers.InStepIff` | src/Gui/ProjectFilesWatcher.cs:82-136 | The watched scripts are those of the project outside archives exactly when its list holds the scripts that came with a project or were added to one and were not on the list of a project replaced since by one without them |
| `ScriptWatchers.RemovalLeavesWatcher` | src/Gui/ProjectFilesWatcher.cs:190-203 | In every run, a script that is taken off the list stays watched exactly as long as no project that lists it again is replaced by one that does not |
| `ScriptWatchers.ProjectFilesWatcher.AddScripts` | src/Gui/ProjectFilesWatcher.cs:101-123 | Exactly the scripts outside archives are watched in addition, watched ones keep their watcher, and all others created are disposed |
| `ScriptWatchers.ProjectFilesWatcher.RemoveScripts` | src/Gui/ProjectFilesWatcher.cs:125-136 | Exactly these scripts are no longer watched, and their watchers are disposed |
| `ScriptWatchers.ProjectFilesWatcher.SetProject` | src/Gui/ProjectFilesWatcher.cs:82-99 | On the heap: the watched scripts lose those of the old project and gain those of the new one, as the step of the runs does |
| `ScriptWatchers.ProjectFilesWatcher.OnScriptsChanged` | src/Gui/ProjectFilesWatcher.cs:190-203 | On the heap: added scripts are watched; any other change fails and leaves the watchers alone, as the step of the runs does |
| `HexPatterns.PatternMatchesIff` | src/Core/PlatformHeuristics.cs:75-119 | A pattern loaded from text matches bytes under its mask exactly when they agree digit by digit with every complete pair |
| `HexPatterns.WildcardFreePattern` | src/Core/PlatformHeuristics.cs:82-110 | Without wildcards the masks are all ones and the bytes those of the plain reader |
| `HexPatterns.HexRoundTrip` | src/Core/BytePattern.cs:48-68 | Reading undoes hexadecimal printing of any bytes, with separators anywhere |
| `HexPatterns.DigitIff` | src/Core/BytePattern.cs:79-90 | The table reads the sixteen digits in either case, and nothing else |
| `HexPatterns.FromHexBytes` | src/Core/BytePattern.cs:48-68 | The loop computes the bytes of the complete digit pairs |
| `HexPatterns.LoadWildcards` | src/Core/PlatformHeuristics.cs:77-110 | The loop computes bytes and masks of the complete pairs of digits and wildcards |
| `HexPatterns.Load` | src/Core/PlatformHeuristics.cs:68-131 | Which of the two readings is taken, the byte order, and when there is no pattern |
| `PatternTexts.TextMatchesIff` | src/Core/PlatformHeuristics.cs:75-119 | A pattern given as text alone matches bytes exactly when its characters, digits of either case or one of the two wildcards, agree with their halves; there is none with fewer than two such characters |
| `PatternTexts.MaskedMatchesIff` | src/Core/PlatformHeuristics.cs:120-131 | One given as bytes and a mask matches bytes exactly when these, under the mask, are its bytes |
| `PatternTexts.EndiannessNames` | src/Core/PlatformHeuristics.cs:72-74 | The byte order of the pattern: big-endian for a missing or empty name and for names in b, little-endian for names in l |
| `MruLists.ItemsAreMostRecent` | src/Gui/MruList.cs:81-96 | After any run of uses of an empty list, the items are the first `itemsMax` distinct entries of the history, read from the most recent one |
| `MruLists.MruList.Use` | src/Gui/MruList.cs:81-96 | The new list, for any old list |

## Left out

- `Statement.Block` and `Branch.Target`: the back-references from statements to blocks are not modelled; coalescing and redirecting do not update them.
- Statements are not interpreted: two runs are compared by the statements they execute and the branches they take.
- `ReplaceBranchWithJump` and the traversal order of `ControlFlowGraphCleaner`.
- Registers that do not fit 64 bits, for which the masks of the source mean nothing, and `SequenceStorage.Exceeds`, which dispatches like `OverlapsWith`.
- `FlagGroupStorage.OffsetOf`: it ignores the register and adds only an easy member.
- Storages that are no registers as elements of a sequence whose offsets are computed.
- `CompactAddresses.PackedRefinesPlain`: packed addresses of 63 and 64 bits, which do not refine plain ones (`CompactWide.WideNewOffsetIff` says when a new offset is taken over, and `CompactWide.WideOffsetIff` which offsets can be read back).
- The order that the comparison of types defines: the model and its callers only ask whether a result is 0.
- The suffix of a printed address: the code accepts it and never prints it, and so does the model.
- Culture and white space in number parsing: parsing is plain hexadecimal reading with range checks.
- Segments that reach beyond the end of the address space, in the mapping of linear addresses.
- `SegmentMap.MapChanged`, `Selectors`, image readers, access modes and `AddOverlappingSegment`.
- The kinds of data types in `DataTypeComparer`: a type is a tree, whose root holds all that is compared of the type itself. Types that contain themselves, types nested more than twenty levels deep, at which the comparer gives up, and the kinds it cannot compare are not modelled. Of the latter, a comparison of two enumerations throws after it has put the provisional 0 in, which then stays: the next call that compares the two takes them for equal, without any other thread.
- Comparisons of types that other parts of the program make at the same time; those they have finished are part of the initial state.
- `InstanceSharing.SafeIff`: an equivalence where different keys differ in one place. Elsewhere a clash may be harmless, and which combinations of clashes do harm is not characterised; `InstanceCaches.SharesIff` is the condition on the run.
- Resizing of the cache, which can change the order in which entries are looked at, and overrides of `DoMakeInstance`.
- The array of types in a cache key is taken as a value; a caller that changed it later is not modelled. So are the arrays of storages in `Binders`.
- Names and data types of identifiers; the identifier of a first use keeps the storage it was asked for.
- `EnsureOutArgument`, stack variables and temporaries with an explicit number, which only one of the binders supports.
- Reload attempts look up the project and evaluate the script; only that they begin is modelled.
- File system watchers and timers are abstract steps; subscribing to events of the project and the decompiler is not modelled.
- Loading and saving the list of recently used items, which can bring in repeated entries.
- Dispatch of a storage to its `Ensure` method by the binders; the model's own loop in `Binders.RunBoth` stands for the callers.
- The rest of the repository: loaders, scanners, analyses, type libraries, rendering and the user interface.
