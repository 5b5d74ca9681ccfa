# Game engine bookkeeping core, modelled in Dafny

This project models the integer bookkeeping layer of a C game engine
and proves properties of it. The layer covers:

- the allocators: the first-fit free list, the dynamic allocator over it,
  the linear (bump) allocator and the virtual-memory page pools with their
  bit arrays;
- the fixed-capacity linked list;
- the string and bit utilities;
- the input state machine;
- the texture, material, geometry, shader and resource registries;
- the `key=value` readers of the shader and material loaders.

Each source file becomes one Dafny module of the same name:

| source file | module |
|---|---|
| freelist.c | `Freelist` |
| dynamic_allocator.c | `DynamicAllocator` |
| linear_allocator.c | `LinearAllocator` |
| bitarray.c | `BitArray` |
| vmm_system.c | `Vmm` |
| linkedlist.c | `LinkedList` |
| kstring.c | `KString` |
| utils.h | `Utils` |
| input.c | `Input` |
| texture_system.c | `TextureSystem` |
| material_system.c | `MaterialSystem` |
| geometry_system.c | `GeometrySystem` |
| shader_system.c | `ShaderSystem` |
| resource_system.c | `ResourceSystem` |
| shader_loader.c | `ShaderLoader` |
| material_loader.c | `MaterialLoader` |

`Registry` holds the slot and reference bookkeeping that the texture and
material systems share. `ConfigLine` holds the line reader that both
loaders share. `Wrappers` holds `Option` and the integer limits.

Code that updates state in place becomes a class:

- its fields are the state the C code mutates;
- its methods say, with `modifies`, what they change;
- each method's `ensures` gives the whole new state in terms of the old,
  as a specification function;
- lemmas prove the promised properties of those functions.

The engine's hash table becomes a total `map` with the value that
`hashtable_fill` writes as its default (the shader's uniform lookup,
filled from an uninitialised value, is the exception; see Findings). A darray becomes a `seq`. The
outcome of every platform, renderer or loader call becomes a `bool`
parameter.

Defects in the C code are modelled twice (see "## Findings"):

- an as-written definition, with a lemma that exhibits the faulty input;
- the corrected behaviour, which the rest of the model uses.

## Model

| member | source | states |
|---|---|---|
| Utils.Clz | engine/src/core/utils.h:5-10 | kclz_u64 is 64 exactly for 0; for x ≠ 0 with c leading zeros, 2^(63−c) ≤ x < 2^(64−c) |
| Utils.ClzExamples | engine/src/core/utils.h:5-10 | kclz_u64(0) = 64, kclz_u64(1) = 63, kclz_u64(2^64 − 1) = 0 |
| Utils.NextPow2IsLeastPow2 | engine/src/core/utils.h:44-49 | for x ≤ 2^63, next_pow2_u64(x) is a power of two, is ≥ x, is < 2x for x ≥ 1, and is ≤ every power of two ≥ x (so it is 1 for x ≤ 1) |
| Utils.NextPow2OfPow2 | engine/src/core/utils.h:44-49 | a power of two up to 2^63 is its own next power of two |
| KString.TrimmedSlice | engine/src/core/kstring.c:78-93 | the trimmed text is one contiguous slice s[i..j]; everything before i and from j on is whitespace; its first and last characters are not; it is empty exactly when s is all whitespace |
| KString.Trim | engine/src/core/kstring.c:78-93 | string_trim's forward and backward scans return exactly the trimmed slice |
| KString.Mid | engine/src/core/kstring.c:95-114 | string_mid's copy loops produce the mid text: empty for length 0 or start ≥ strlen, at most length characters from start, or the rest of the string for a negative length |
| KString.MidThenRest | engine/src/core/kstring.c:95-114 | a positive-length mid followed by the rest from start + n is the negative-length mid from start, and holds min(n, strlen − start) characters |
| KString.IndexOf | engine/src/core/kstring.c:116-133 | the result is the first index holding c, and −1 exactly when c does not occur (so −1 for the empty string) |
| KString.IndexOfChar | engine/src/core/kstring.c:116-133 | string_index_of_char's loop returns −1 for a null string and otherwise the first index of c, or −1 |
| KString.EqualIIsLowerEqual | engine/src/core/kstring.c:29-35 | strings_equali holds exactly when both strings lower-case to the same text |
| KString.EqualIEquivalence | engine/src/core/kstring.c:29-35 | case-insensitive equality is reflexive, symmetric and transitive |
| KString.SameMatchesI | engine/src/core/kstring.c:29-35 | strings equal up to case match the same words up to case |
| KString.ToBool | engine/src/core/kstring.c:266-273 | string_to_b8 succeeds exactly for a non-null string |
| KString.ToBoolTrueExactly | engine/src/core/kstring.c:266-273 | the value is true exactly for "1" and for "true" in any case ("TRUE" is true, "0" false) |
| KString.PiecesNoDelimiter | engine/src/core/kstring.c:289-325 | no delimiter-separated piece contains the delimiter |
| KString.JoinPieces | engine/src/core/kstring.c:289-325 | joining the pieces with the delimiter gives back the string: nothing is lost or invented |
| KString.PiecesJoin | engine/src/core/kstring.c:289-325 | cutting the join of delimiter-free pieces gives back those pieces: the cutting is the exact inverse of joining |
| KString.KeepProperties | engine/src/core/kstring.c:297-315 | the kept entries are at most the pieces, hold no delimiter, are non-empty unless include_empty is set, and are the pieces themselves when neither trimming nor dropping applies |
| KString.SplitProperties | engine/src/core/kstring.c:275-352 | no entry holds the delimiter; without include_empty no entry is empty; untrimmed with include_empty the entries join back to the string |
| KString.StringSplit | engine/src/core/kstring.c:275-352 | string_split returns 0 and appends nothing for a null string; otherwise it appends exactly the kept entries in order and returns their number |
| KString.SplitAsWrittenLosesEntries | engine/src/core/kstring.c:311-313 | as written, "a,b" pops the caller's empty array (undefined) or drops an earlier entry, while the intended split appends ["a", "b"] |
| KString.LastEntryClearedBuffer | engine/src/core/kstring.c:327-333 | once a delimiter has cleared the buffer, the trimmed last entry as written is the intended one (also line 318) |
| KString.LastEntryReadsStack | engine/src/core/kstring.c:327-333 | with no delimiter the buffer was never cleared: "ab" with a stray 'c' behind it trims to "abc" as written, where "ab" is intended |
| KString.CString | engine/src/core/kstring.c:16 | the C string a buffer holds is its NUL-free prefix, followed by a NUL when shorter than the buffer |
| KString.StringLength | engine/src/core/kstring.c:16 | string_length returns the index of the first NUL, the length of the C string |
| KString.StringEmpty | engine/src/core/kstring.c:62-68 | string_empty returns its argument; a non-null buffer then holds the empty string and only its first character changed |
| KString.StringDuplicate | engine/src/core/kstring.c:18-23 | string_duplicate returns a fresh buffer of length + 1 characters holding the same C string and its NUL |
| KString.SplitChar | engine/src/core/kstring.c:289-325 | one character of the loop: a delimiter closes the current piece and pushes its entry, anything else extends it; the pieces so far stay in step |
| KString.PushEntry | engine/src/core/kstring.c:294-315 | a finished piece's entry, trimmed if asked, is kept exactly when it is non-empty or empty entries are wanted (also lines 328-349) |
| Freelist.MemoryRequirement | engine/src/containers/freelist.c:25-27 | the requirement is the state plus one node per pointer-sized unit, so at least the state and at most the state plus twice the managed size |
| Freelist.FirstAtOrAfter | engine/src/containers/freelist.c:149-204 | the index the free walk stops at: every earlier range starts before the block, the range found starts at or after it |
| Freelist.FirstFit | engine/src/containers/freelist.c:92-116 | the first range of at least size bytes, every earlier one being smaller; −1 exactly when no range is large enough |
| Freelist.FreeGuardSound | engine/src/containers/freelist.c:133-136 | a block the free guard accepts holds no free byte (also lines 154-157, 196-199, 208-211) |
| Freelist.FreeGuardComplete | engine/src/containers/freelist.c:133-136 | every non-empty block of allocated memory inside the managed size passes the guard (also lines 154-157, 196-199, 208-211) |
| Freelist.FreeRunFits | engine/src/containers/freelist.c:92-116 | n contiguous free bytes lie in one range, so first fit finds a range for n bytes |
| Freelist.FreeList.NodeAccounting | engine/src/containers/freelist.c:257-280 | nodes holding ranges plus nodes on the spare chain are exactly max_entries (also line 25) |
| Freelist.FreeList.constructor | engine/src/containers/freelist.c:22-66 | create leaves one free range [0, total_size) in node 0 and nodes 1 … max_entries − 1 on the spare chain in order |
| Freelist.FreeList.FreeSpace | engine/src/containers/freelist.c:243-254 | free_space is the sum of the free ranges' sizes |
| Freelist.FreeList.AllocateBlock | engine/src/containers/freelist.c:80-123 | succeeds exactly when some range is large enough; returns the first such range's offset; an exact fit unlinks it and returns its node, a larger one shrinks from the front; the block was wholly free and is free no more, free space drops by size; on failure nothing changes; the invariant is kept |
| Freelist.FreeList.FreeBlock | engine/src/containers/freelist.c:125-225 | succeeds exactly when the guard accepts and a node is available when one is needed; the block was wholly allocated, joins the free bytes merging with its neighbours, free space grows by size; on failure nothing changes; the invariant is kept |
| Freelist.FreeList.Clear | engine/src/containers/freelist.c:227-241 | clear, as intended, leaves one range [0, total_size) and every other node on the spare chain, keeping the invariant |
| Freelist.FreshInv | engine/src/containers/freelist.c:49-65 | the state create and clear produce satisfies the invariant and has free space total_size |
| Freelist.AllocExactCase | engine/src/containers/freelist.c:95-106 | unlinking an exactly fitting range keeps the invariant, removes exactly its bytes and its size from the free space |
| Freelist.AllocShrinkCase | engine/src/containers/freelist.c:107-111 | shrinking a larger range from the front keeps the invariant and removes exactly the first size bytes |
| Freelist.FreeInsertCase | engine/src/containers/freelist.c:166-175 | a new range in a spare node keeps the invariant and adds exactly the block's bytes (also lines 139-144, 219-224) |
| Freelist.FreeMergePrevCase | engine/src/containers/freelist.c:213-217 | growing the previous range keeps the invariant and adds exactly the block's bytes |
| Freelist.FreeMergeNextCase | engine/src/containers/freelist.c:160-165 | growing the following range downwards keeps the invariant and adds exactly the block's bytes |
| Freelist.FreeMergeBothCase | engine/src/containers/freelist.c:186-193 | merging the previous range, the block and the following range keeps the invariant, adds the gap and returns one node |
| Freelist.FreedSome | engine/src/containers/freelist.c:125-225 | the free succeeds exactly when the guard accepts and, when a new node is needed, the spare chain is non-empty |
| Freelist.FreedCorrect | engine/src/containers/freelist.c:125-225 | a successful free keeps the invariant, frees exactly the block's bytes, which were all allocated, and grows the free space by size |
| Freelist.AllocateFreeRoundTrip | engine/src/containers/freelist.c:80-225 | allocating a block and freeing it again restores the very same ranges and spare chain |
| Freelist.FreeAcceptsOverlap | engine/src/containers/freelist.c:183-193 | as written, freeing 50 bytes at 10 next to [0, 100) is accepted although those bytes are free; the corrected guard rejects it |
| Freelist.FreeBoundWraps | engine/src/containers/freelist.c:133 | as written, offset + size wraps in u32 and a huge block passes the bound test; the corrected guard rejects it |
| Freelist.FreeNullExample | engine/src/containers/freelist.c:140-141 | a reachable two-node state where free_block needs a node, get_node returns null and the code dereferences it (also lines 171-172, 220-221) |
| Freelist.ClearAsWrittenBreaksNodes | engine/src/containers/freelist.c:227-241 | clear as written leaves node 0 both on the list and on the spare chain, or loses a node, so the node accounting breaks |
| Freelist.FreeList.AllocateFrom | engine/src/containers/freelist.c:95-111 | the block comes from the start of the chosen range: an exact fit removes the range and returns its node, a larger one shrinks it; the free bytes drop by size and only [offset, offset + size) stops being free |
| Freelist.FreeList.FreeBefore | engine/src/containers/freelist.c:149-204 | freeing in front of a range: refused exactly when the block reaches into it or repeats its offset, otherwise the list becomes Freed's result (merged with the next and/or previous range where they touch) |
| Freelist.FreeList.FreeTail | engine/src/containers/freelist.c:206-224 | freeing after the last range: refused on overlap, merged when it touches, otherwise a new tail node, matching Freed |
| Freelist.CreateLastNodeAsWritten | engine/src/containers/freelist.c:57-65 | the last node freelist_create writes, `max_entries - 1` in u32: a u32 index, and max_entries − 1 whenever there is a node |
| Freelist.CreateSmallTotalBreaks | engine/src/containers/freelist.c:25-65 | as written, below 8 bytes there is no node yet the last-node index wraps to INVALID_ID; from 8 to 15 bytes the one node's range becomes INVALID_ID; from 16 bytes the head keeps [0, total_size) and the last spare is max_entries − 1 |
| DynamicAllocator.Requirement | engine/src/memory/dynamic_allocator.c:19-22 | the requirement is the allocator's state, the free list's requirement for the size (as a u32) and the managed bytes |
| DynamicAllocator.ToU32 | engine/src/memory/dynamic_allocator.c:70 | the u32 the free list receives is the value itself whenever that fits in 32 bits (also line 89) |
| DynamicAllocator.Allocator.constructor | engine/src/memory/dynamic_allocator.c:13-44 | create leaves one free range over total_size as the free list receives it, cut to a u32 (the value itself when it fits in 32 bits), so the free space is that size |
| DynamicAllocator.Allocator.Allocate | engine/src/memory/dynamic_allocator.c:60-79 | returns memory + the first-fit offset exactly when a range is large enough; the block was wholly free and no longer is, free space drops by size; an oversized request returns null and changes nothing |
| DynamicAllocator.Allocator.Free | engine/src/memory/dynamic_allocator.c:81-97 | the offset is the address minus memory, cut to u32; the free list's verdict is returned; on success the block's bytes are free again and free space grows by size, on failure nothing changes |
| DynamicAllocator.Allocator.FreeSpace | engine/src/memory/dynamic_allocator.c:99-107 | the free space is the free list's sum of free ranges |
| DynamicAllocator.LiveBlocksDisjoint | engine/src/memory/dynamic_allocator.c:60-79 | a block taken from bytes still free after an earlier allocation shares no byte with that earlier block |
| DynamicAllocator.FreeThenRefit | engine/src/memory/dynamic_allocator.c:60-97 | after freeing n bytes a request for n bytes is served, and the free space had grown by exactly n |
| DynamicAllocator.MiddleHoleReused | engine/src/memory/dynamic_allocator.c:60-97 | three 100-byte blocks of 1024 come from offsets 0, 100, 200; freeing the middle one succeeds, the next 100-byte request gets offset 100 back and 1024 − 300 bytes stay free |
| LinearAllocator.MemoryRequirement | engine/src/memory/linear_allocator.c:20 | the requirement is the state's size plus total_size |
| LinearAllocator.AlignUpIsLeastMultiple | engine/src/memory/linear_allocator.c:62-66 | the masked address is a multiple of the alignment, at least the raw address and less than one alignment above it, and no larger than any multiple at or above the raw address |
| LinearAllocator.PowerOfTwoIsPow | engine/src/memory/linear_allocator.c:53 | a value passing the alignment test is 2^k for some k |
| LinearAllocator.PowIsPowerOfTwo | engine/src/memory/linear_allocator.c:53 | every 2^k passes the alignment test |
| LinearAllocator.Allocator.constructor | engine/src/memory/linear_allocator.c:26-31 | create records total_size with nothing allocated |
| LinearAllocator.Allocator.Allocate | engine/src/memory/linear_allocator.c:45-80 | null with allocated unchanged for an alignment of 0 or not a power of two, or when size + padding does not fit; otherwise the least multiple of alignment at or above memory + allocated, allocated grows by size + padding, and allocated ≤ total_size is kept |
| LinearAllocator.Allocator.FreeAll | engine/src/memory/linear_allocator.c:82-92 | free_all resets allocated to 0 and keeps total_size |
| LinearAllocator.Allocator.Destroy | engine/src/memory/linear_allocator.c:34-43 | destroy zeroes total_size, allocated and memory |
| LinearAllocator.AllocateBoundWraps | engine/src/memory/linear_allocator.c:68-70 | as written, a request of 2^64 − 5 bytes wraps the u64 sum and passes the bound test; the intended test refuses it |
| BitArray.Chunks | engine/src/containers/bitarray.c:5 | DIV_CEIL(length, 64) words hold length bits with less than one word to spare (also line 112) |
| BitArray.FlattenIndex | engine/src/containers/bitarray.c:6-7 | bit i of the array is bit i % 64 of word i / 64 (CHUNK and INDEX) |
| BitArray.FillBitsIdempotent | engine/src/containers/bitarray.c:63-102 | filling a range twice is filling it once, and bits outside the range are untouched |
| BitArray.FirstMatch | engine/src/containers/bitarray.c:128-168 | the search result is end when start ≥ end, and otherwise lies in [start, end] |
| BitArray.FirstMatchFinds | engine/src/containers/bitarray.c:128-168 | the result, when below end, holds val, and no index in [start, result) does |
| BitArray.FirstMatchUnique | engine/src/containers/bitarray.c:128-168 | any index with those two properties is the result: the specification determines it |
| BitArray.FirstMatchAfterSet | engine/src/containers/bitarray.c:128-168 | after setting bit k in the range to val, the search finds val no later than k; it is unchanged if bit k already held val (also lines 55-61) |
| BitArray.WordBytes | engine/src/containers/bitarray.c:22-25 | the intended requirement is whole u64 words covering every word any bit below length lies in |
| BitArray.BitArray.constructor | engine/src/containers/bitarray.c:22-37 | create, with memory given, leaves every bit below length false |
| BitArray.BitArray.Destroy | engine/src/containers/bitarray.c:39-42 | destroy leaves length 0 and no words |
| BitArray.BitArray.Set | engine/src/containers/bitarray.c:55-61 | false with no change for index ≥ length; otherwise only bit index becomes value (also lines 11-13) |
| BitArray.BitArray.Test | engine/src/containers/bitarray.c:104-108 | the stored bit, or false when index ≥ length |
| BitArray.BitArray.Fill | engine/src/containers/bitarray.c:44-46 | every bit below length becomes value and every other bit is kept |
| BitArray.BitArray.FillRange | engine/src/containers/bitarray.c:48-53 | false with no change when start + size > length (the corrected test, without u64 wrap-around; see Findings); otherwise exactly the bits in [start, start + size) become value, across word boundaries |
| BitArray.BitArray.FillWords | engine/src/containers/bitarray.c:63-102 | the head mask, the whole-word memset and the tail mask together set exactly [start, end) |
| BitArray.BitArray.CountSet | engine/src/containers/bitarray.c:110-126 | count_set, as intended, returns the number of true bits below length |
| BitArray.BitArray.FindFirst | engine/src/containers/bitarray.c:128-168 | find_first's word scan returns the smallest index in [start, end) whose bit is val, else end |
| BitArray.FoundInWord | engine/src/containers/bitarray.c:145-149 | a non-zero word view gives the first match through its lowest set bit, capped at end (also lines 159-163) |
| BitArray.NoneInWord | engine/src/containers/bitarray.c:151-165 | a zero word view means no bit of that word is val |
| BitArray.CountSetReadsPastEnd | engine/src/containers/bitarray.c:118-124 | as written, when length fills its words exactly, a set bit in the word past the end is counted, so the count exceeds the true bits |
| BitArray.CreateRequirementTooSmall | engine/src/containers/bitarray.c:24-25 | as written, 10 bits are reported as 2 bytes while the first u64 access touches 8 |
| BitArray.FillRangeGuardNoWrap | engine/src/containers/bitarray.c:49-52 | while start + size fits in 64 bits, the test as written accepts exactly when start + size <= length, and passes that sum as the end |
| BitArray.FillRangeBoundWraps | engine/src/containers/bitarray.c:49-52 | on a 64-bit array, start 8 and size 2^64 − 4 wrap to end 4, so the call is accepted as written with an end below its start; the corrected test refuses it |
| BitArray.BitArray.FirstWordOrScan | engine/src/containers/bitarray.c:139-151 | the first word, masked below start: a match gives the answer capped at end, otherwise the scan goes on; either way the result is FirstMatch |
| BitArray.BitArray.ScanWords | engine/src/containers/bitarray.c:151-167 | the word loop up to the word holding end - 1 returns FirstMatch, given no match before its first word |
| Vmm.BytesToPageIsCeiling | engine/src/systems/vmm_system.c:275-277 | bytes_to_page is the least page count whose bytes cover the request |
| Vmm.OddSizeTakesTwoPages | engine/src/systems/vmm_system.c:275-277 | page_size + 128 bytes take two pages |
| Vmm.NewPool | engine/src/systems/vmm_system.c:101-127 | the new record reserves the requested pages, none mapped, all bits clear, with its base behind the system pages holding the bitarray |
| Vmm.NewPoolValid | engine/src/systems/vmm_system.c:101-127 | the new record is well formed (its counters agree with its bits) and has no committed page |
| Vmm.FirstFreeSlot | engine/src/systems/vmm_system.c:82-87 | the first record whose base address is 0, every earlier one being in use; none only when all are in use |
| Vmm.RunsHead | engine/src/systems/vmm_system.c:231-242 | the first run starts at the first page in the searched state and stops at the next page in the other state, or at the range's end |
| Vmm.RunIsMaximal | engine/src/systems/vmm_system.c:231-242 | every run holds only pages in the searched state, lies in the range, and is followed by a page in the other state or the end |
| Vmm.RunsSeparated | engine/src/systems/vmm_system.c:231-259 | consecutive runs are separated by at least one page in the other state |
| Vmm.RunsCover | engine/src/systems/vmm_system.c:231-259 | every page of the range in the searched state lies in some run |
| Vmm.AlterPages | engine/src/systems/vmm_system.c:223-263 | the platform is called once per maximal run of pages in the opposite state, in page order; changed exactly when a call succeeded; on success every page of the range ends in the target state and no other page changes; at the first refusal it stops and returns false with the pages before the refused run filled |
| Vmm.FirstRefused | engine/src/systems/vmm_system.c:247-253 | the index of the first run the platform refuses, with every run before it accepted; none exactly when every run is accepted |
| Vmm.AlterOutcome | engine/src/systems/vmm_system.c:223-263 | alter_pages returns true exactly when no run is refused, stops at the first refused run, and sets changed exactly when the first run is accepted |
| Vmm.FindBatch | engine/src/systems/vmm_system.c:232-242 | the two find_first calls bound the next run of opposite-state pages, or report that none is left and the range is filled |
| Vmm.CountFillTrue | engine/src/systems/vmm_system.c:265-273 | committing a range never lowers the committed count and raises it by at most the range's size |
| Vmm.CountFillFalse | engine/src/systems/vmm_system.c:265-273 | decommitting a range never raises the committed count |
| Vmm.AlterCount | engine/src/systems/vmm_system.c:223-273 | a commit stopped part-way raises the count by at most the range's size; a decommit never raises it |
| Vmm.Manager.constructor | engine/src/systems/vmm_system.c:28-71 | initialise with its platform calls succeeding: no pages counted, the byte limits converted to pages, every record free |
| Vmm.Manager.FindFreeSlot | engine/src/systems/vmm_system.c:82-91 | the search loop returns the first free record, or the record count when none is free |
| Vmm.Manager.NewPagePool | engine/src/systems/vmm_system.c:79-130 | the first free record gets ceil(size / page_size) uncommitted pages; no free record, or the reserved total passing its maximum, gives null with nothing changed; the reserved total grows by the pool's pages before the platform calls |
| Vmm.Manager.CommitPages | engine/src/systems/vmm_system.c:132-166 | true exactly when the pool is non-null, the global mapped count plus the request stays within its maximum, the rounded-up range ends within the pool's pages and the platform accepts every run of uncommitted pages in it; then the whole range is committed; a refused run leaves the runs before it committed and nothing after; info is set exactly when the first run was accepted; other pools are unchanged |
| Vmm.Manager.DecommitPages | engine/src/systems/vmm_system.c:168-198 | true exactly when the pool is non-null, the rounded-up range ends within the pool's pages and the platform accepts every run of committed pages in it; then the whole range is decommitted; a refused run leaves the runs before it decommitted; info is set exactly when the first run was accepted; the global mapped count never grows |
| Vmm.Manager.AlterAndRecount | engine/src/systems/vmm_system.c:153-166 | the result is true exactly when no run is refused; info holds the range in bytes, and the counts are recomputed, exactly when the first run was accepted; the pages end filled over the whole range on success and up to the first refused run otherwise (also lines 185-197) |
| Vmm.Manager.RecalcMappedSize | engine/src/systems/vmm_system.c:265-273 | the pool's mapped pages become its committed pages, and the global count moves by exactly the change |
| Vmm.Manager.ReleasePagePool | engine/src/systems/vmm_system.c:200-219 | false for a null pool or a refused release; otherwise the pool's reserved and mapped pages leave the global counts and its record is zeroed |
| Vmm.ReleasedSlotReused | engine/src/systems/vmm_system.c:82-87 | a released record is found by the next pool search unless an earlier record is free (also line 215) |
| Vmm.SwissCheese | engine/src/systems/vmm_system.c:223-273 | five pages committed, pages 0, 2 and 4 decommitted leave 2 mapped; recommitting page 2 gives 3; decommitting page 0 again leaves 3 |
| Vmm.OverlappingCommits | engine/src/systems/vmm_system.c:223-273 | committing pages 0-1 and then 1-2 maps 3 pages, not 4 |
| Vmm.PageToBytesWraps | engine/src/systems/vmm_system.c:279 | as written the u32 product wraps: 2^20 pages of 4096 bytes come out as 0 bytes instead of 2^32 |
| LinkedList.MemoryRequirement | engine/src/containers/linkedlist.c:31-33 | the requirement is the state followed by exactly max_nodes nodes |
| LinkedList.List.constructor | engine/src/containers/linkedlist.c:24-65 | create leaves the list empty with all max_nodes nodes on the free chain |
| LinkedList.List.Reset | engine/src/containers/linkedlist.c:73-90 | reset empties the list and puts every node back on the free chain |
| LinkedList.List.PushTail | engine/src/containers/linkedlist.c:92-117 | false with no change when no node is free; otherwise the list becomes s + [x]; length + free nodes stay max_nodes |
| LinkedList.List.PushHead | engine/src/containers/linkedlist.c:119-144 | false with no change when no node is free; otherwise the list becomes [x] + s |
| LinkedList.List.PopTail | engine/src/containers/linkedlist.c:146-172 | 0 with no change on an empty list; otherwise the last value, removed, its node back on the free chain |
| LinkedList.List.PopHead | engine/src/containers/linkedlist.c:174-197 | 0 with no change on an empty list; otherwise the first value, removed |
| LinkedList.List.InsertAt | engine/src/containers/linkedlist.c:199-248 | false with no change for index > length or no free node; otherwise the list becomes s[..i] + [x] + s[i..] |
| LinkedList.List.RemoveAt | engine/src/containers/linkedlist.c:250-285 | 0 with no change for index ≥ length; otherwise returns s[i] and leaves s[..i] + s[i+1..]; as the iterator's remove, only this removal is modelled, not where the iterator points afterwards (also lines 349-351) |
| LinkedList.List.GetAt | engine/src/containers/linkedlist.c:287-303 | s[i] for i < length, else 0 |
| LinkedList.List.Length | engine/src/containers/linkedlist.c:305-307 | the length, which with the free nodes makes max_nodes |
| LinkedList.InsertedShape | engine/src/containers/linkedlist.c:199-248 | insertion puts x at i, keeps the values before it and shifts the later ones up by one |
| LinkedList.InsertRemoved | engine/src/containers/linkedlist.c:199-285 | removing at i and inserting the same value back at i restores the list |
| LinkedList.RemoveInserted | engine/src/containers/linkedlist.c:199-285 | inserting at i and removing at i gives back the inserted value and the list |
| LinkedList.PushesAreInserts | engine/src/containers/linkedlist.c:92-144 | push_tail is insert_at at the length and push_head is insert_at at 0 (also lines 199-248) |
| LinkedList.PopsAreRemoves | engine/src/containers/linkedlist.c:146-197 | pop_tail removes the last value and pop_head the first (also lines 250-285) |
| LinkedList.NextNode | engine/src/containers/linkedlist.c:340 | the node after position k exists exactly when k is not the tail |
| LinkedList.Begin | engine/src/containers/linkedlist.c:309-315 | begin stands on the head at index 0 and is true exactly for a non-empty list |
| LinkedList.BeginAt | engine/src/containers/linkedlist.c:317-333 | false with the iterator untouched for index ≥ length; otherwise it stands on the node at index |
| LinkedList.Next | engine/src/containers/linkedlist.c:335-343 | false with no change on a null node; otherwise one node on and one index up, true unless that ran off the tail |
| LinkedList.Get | engine/src/containers/linkedlist.c:345-347 | the value of the node the iterator stands on |
| LinkedList.IterationInOrder | engine/src/containers/linkedlist.c:309-347 | after begin and k calls of next the iterator reads s[k]; next from the tail returns false, and so does every later call |
| LinkedList.EmptyPoolChainWraps | engine/src/containers/linkedlist.c:56 | as written, max_nodes = 0 makes max_nodes − 1 wrap in u64, so the loop writes far past a pool of no nodes (also line 83) |
| Input.AsUnsigned | engine/src/core/input.c:92-93 | a signed value stored into an unsigned event field of the same width is itself when non-negative and wraps by the field's modulus when negative (also lines 64, 100) |
| Input.InputSystem.constructor | engine/src/core/input.c:29-42 | initialise, as intended, zeroes every key, button and position, current and previous, and marks the system initialised |
| Input.InputSystem.Update | engine/src/core/input.c:47-56 | nothing before initialisation; afterwards previous keyboard and mouse state equal the current, which is unchanged |
| Input.InputSystem.ProcessKey | engine/src/core/input.c:58-68 | the key takes the pressed state; exactly one pressed or released event fires when it differed, none otherwise; nothing else changes |
| Input.InputSystem.ProcessButton | engine/src/core/input.c:70-81 | the button takes the pressed state; exactly one event fires when it differed, none otherwise; nothing else changes |
| Input.InputSystem.ProcessMouseMove | engine/src/core/input.c:83-96 | the position becomes (x, y); one moved event with both coordinates as u16 fires exactly when x or y differed |
| Input.InputSystem.ProcessMouseWheel | engine/src/core/input.c:98-102 | always one wheel event carrying the delta as a u8 (a negative delta arrives as 128 or more); no state changes |
| Input.InputSystem.UpDownComplement | engine/src/core/input.c:104-181 | once initialised, is/was up and down are complements for every key and button; before, every query says up and not down and both positions read (0, 0) |
| Input.InputSystem.AfterUpdate | engine/src/core/input.c:118-130 | right after update every "was" query answers as the matching "is" query and the previous position is the current one (also lines 47-56, 147-159, 172-181) |
| Input.ZeroedAsWritten | engine/src/core/input.c:38 | as written only the first 8 bytes are zeroed: the first 7 keys are cleared and every other key keeps what the memory held |
| Input.StaleKeyAfterInitialize | engine/src/core/input.c:38 | memory holding key 100 as down still reports it down after initialise as written, while the intended zeroing reports it up |
| Registry.Lookup | engine/src/systems/texture_system.c:128-134 | a name never set reads as the invalid reference {0, INVALID_ID, false} the table was filled with (also lines 72-77) |
| Registry.ReleaseUndoesAcquire | engine/src/systems/texture_system.c:210-219 | a release undoes an acquire exactly, or returns the entry to the invalid reference when the last reference of an auto-release entry goes (also lines 136-139) |
| Registry.ReloadGeneration | engine/src/systems/texture_system.c:343-347 | the new generation is a u32 different from the old one, and 0 exactly when the old one was INVALID_ID (also lines 311-312) |
| Registry.Ids | engine/src/systems/texture_system.c:146 | the ids the free-slot search reads, slot by slot |
| Registry.FirstInvalid | engine/src/systems/texture_system.c:143-158 | the lowest index whose id is INVALID_ID, every earlier one being in use; none exactly when every slot is in use |
| Registry.FindFirstInvalid | engine/src/systems/texture_system.c:143-152 | the upward scan that stops at the first INVALID id returns that lowest free index |
| Registry.FirstInvalidUnique | engine/src/systems/texture_system.c:143-152 | an INVALID id with none before it is the one the search finds |
| Registry.EmptyValid | engine/src/systems/texture_system.c:72-84 | the freshly initialised slots and table satisfy the registry invariant, and slot 0 is the first free one |
| Registry.AcquireExistingValid | engine/src/systems/texture_system.c:167-176 | acquiring a name that already has a slot keeps the invariant (also lines 136-139) |
| Registry.AcquireFreshValid | engine/src/systems/texture_system.c:141-165 | the lowest free slot is unused, so loading a name into it keeps the invariant: no two names share a slot |
| Registry.ReleaseValid | engine/src/systems/texture_system.c:210-231 | a release keeps the invariant whether or not it frees the slot |
| TextureSystem.System.constructor | engine/src/systems/texture_system.c:31 | before initialise there is no state |
| TextureSystem.System.Initialize | engine/src/systems/texture_system.c:38-90 | fails with no change for max_texture_count = 0; otherwise every slot is free and every name reads as the invalid reference |
| TextureSystem.System.Acquire | engine/src/systems/texture_system.c:111-177 | null before initialise; a name with a slot gets that slot back without loading; otherwise the lowest free slot is loaded with id = slot and generation 0; with no free slot or a failed load null is returned and nothing is written; auto_release is taken only at count 0 and the count grows by one |
| TextureSystem.System.Release | engine/src/systems/texture_system.c:179-232 | no change for the default name, before initialise or at count 0; otherwise the count drops by one, and at 0 with auto_release the slot is freed and the name reads as invalid again (also lines 354-361) |
| TextureSystem.System.Shutdown | engine/src/systems/texture_system.c:92-109 | shutdown detaches the state |
| MaterialSystem.FreshLoad | engine/src/systems/material_system.c:252-258 | a failed load leaves the slot as it was; a successful one sets id = handle and a new generation, 0 for a free slot (also lines 216-219) |
| MaterialSystem.FreshGenerationIsOne | engine/src/systems/material_system.c:252-256 | as written the zeroed slot makes every fresh material start at generation 1, where the intended step starts a free slot at 0 (also lines 394-395) |
| MaterialSystem.FailedLoadLeaksSlot | engine/src/systems/material_system.c:423-435 | as written a failed load leaves the only slot with id 0, so no later acquire finds a free slot; the intended step leaves it free (also lines 216-219, 394-395) |
| MaterialSystem.System.constructor | engine/src/systems/material_system.c:58 | before initialise there is no state |
| MaterialSystem.System.Initialize | engine/src/systems/material_system.c:64-123 | fails with no change for max_material_count = 0; otherwise every slot is free and every name invalid, and the result is whether the default material was created |
| MaterialSystem.System.Acquire | engine/src/systems/material_system.c:168-269 | null before initialise; the default name gets the default material with no count change; a name with a slot gets it back; otherwise the lowest free slot is loaded; with no slot or a failed load null is returned and the incremented count is not stored; auto_release is taken only at count 0 |
| MaterialSystem.System.Release | engine/src/systems/material_system.c:271-321 | no change for the default name, before initialise or at count 0; otherwise the count drops by one, and at 0 with auto_release the material is destroyed (slot free) and the name's reference reset (also lines 440-460) |
| MaterialSystem.System.Shutdown | engine/src/systems/material_system.c:125-140 | shutdown detaches the state |
| GeometrySystem.FirstUnused | engine/src/systems/geometry_system.c:97-105 | None exactly when every slot holds a geometry; otherwise an unused slot with none before it |
| GeometrySystem.FirstUnusedUnique | engine/src/systems/geometry_system.c:97-105 | an unused slot with no unused slot before it is the one the scan picks |
| GeometrySystem.ReleasedEntry | engine/src/systems/geometry_system.c:133-144 | one reference fewer (not below 0); an auto-release entry at 0 references becomes unused |
| GeometrySystem.ReleaseUndoesAcquireById | engine/src/systems/geometry_system.c:133-144 | acquire by id then release restores the entry, except that an unreferenced auto-release entry ends unused (also line 90) |
| GeometrySystem.AcquireByIdReadsPastEnd | engine/src/systems/geometry_system.c:81-83 | as written, id 4 in a 4-slot system passes the guard and indexes one past the end; AcquireById refuses it |
| GeometrySystem.System.constructor | engine/src/systems/geometry_system.c:28 | before initialise there are no slots |
| GeometrySystem.System.Initialize | engine/src/systems/geometry_system.c:34-75 | fails with no change for max_geometry_count = 0; otherwise every slot is invalidated first, and success is whether the defaults were created |
| GeometrySystem.System.AcquireById | engine/src/systems/geometry_system.c:81-92 | null for INVALID_ID, an id past the last slot or an unused slot; otherwise the same slot with one more reference and nothing else changed |
| GeometrySystem.System.AcquireFromConfig | engine/src/systems/geometry_system.c:94-119 | the lowest unused slot gets one reference, the requested auto_release and id = slot; with no unused slot, or when the renderer fails and the slot is reset, null and no change (also lines 170-181) |
| GeometrySystem.System.FindFirstUnused | engine/src/systems/geometry_system.c:97-105 | the loop returns FirstUnused of the slots |
| GeometrySystem.System.Release | engine/src/systems/geometry_system.c:121-148 | nothing for null, INVALID_ID or an id whose slot holds another geometry; otherwise that slot becomes ReleasedEntry of itself and no other slot changes (also lines 193-197) |
| GeometrySystem.NonZero | engine/src/systems/geometry_system.c:291-298 | a zero width or height becomes 1, any other is kept |
| GeometrySystem.AtLeastOne | engine/src/systems/geometry_system.c:299-306 | a segment count below 1 becomes 1, any other is kept |
| GeometrySystem.NameOr | engine/src/systems/geometry_system.c:380-394 | a present, non-empty name is kept; otherwise the default |
| GeometrySystem.PlaneIndices | engine/src/systems/geometry_system.c:370-376 | n quads give 6n indices |
| GeometrySystem.PlaneIndicesShape | engine/src/systems/geometry_system.c:370-376 | index 6q + j is index j of quad q, and every index names one of the 4n vertices (also line 343) |
| GeometrySystem.GeneratePlaneConfig | engine/src/systems/geometry_system.c:287-396 | vertex_count 4xy and index_count 6xy in u32 arithmetic, the quads' indices row by row, and the default names for empty ones |
| GeometrySystem.AppendRow | engine/src/systems/geometry_system.c:332-377 | one row appends exactly the next xs quads' indices |
| GeometrySystem.RowStep | engine/src/systems/geometry_system.c:343 | the quad after row y's last is row y + 1's first (also line 370) |
| GeometrySystem.CountsFit | engine/src/systems/geometry_system.c:318 | below 2^32 the counts do not wrap (also line 322) |
| GeometrySystem.PlaneIndicesInRange | engine/src/systems/geometry_system.c:318-324 | while 6xy fits in a u32, index_count matches the buffer and every index is below vertex_count (also lines 370-376) |
| GeometrySystem.PlaneCountsWrap | engine/src/systems/geometry_system.c:318-324 | as written, 2^15 × 2^15 segments give vertex_count 0 and index_count 2^31, while the generated buffer holds the 6 · 2^30 indices of every quad, more than index_count |
| GeometrySystem.PlaneCountsChecked | engine/src/systems/geometry_system.c:318-324 | the intended counts: refused exactly when 6xy does not fit in a u32; otherwise 4xy vertices and 6xy indices, matching the index buffer, with every index below the vertex count |
| GeometrySystem.TopEdgeCentred | engine/src/systems/geometry_system.c:327-337 | with the intended row height the plane's top edge is at height / 2 for any row count |
| GeometrySystem.PlaneTooTall | engine/src/systems/geometry_system.c:335-337 | as written, a 1 x 2 plane of height 2 reaches 3 instead of 1 (also line 328) |
| ShaderSystem.AttributeSize | engine/src/systems/shader_system.c:320-348 | INT8/UINT8 take 1 byte, INT16/UINT16 2, the 32-bit scalars 4, FLOAT32_2/3/4 8/12/16, every other type the default 4 |
| ShaderSystem.StrideAppend | engine/src/systems/shader_system.c:350 | appending an attribute adds its size to the stride (also line 357) |
| ShaderSystem.AlignUp4 | engine/src/systems/shader_system.c:484 | the smallest multiple of 4 not below x |
| ShaderSystem.LayoutAt | engine/src/systems/shader_system.c:457-506 | in a laid-out table every uniform sits where uniform_add put it |
| ShaderSystem.ScopeSizeAppend | engine/src/systems/shader_system.c:500-506 | a new uniform grows only its own scope's block, and a sampler grows none |
| ShaderSystem.LocalRangesAppend | engine/src/systems/shader_system.c:482-491 | a push-constant range is appended exactly for a local uniform |
| ShaderSystem.LayoutAppend | engine/src/systems/shader_system.c:457-506 | appending a uniform placed after the others keeps the layout |
| ShaderSystem.NewUniformPlaced | engine/src/systems/shader_system.c:457-491 | the new entry has index = prior count, location = set_location for samplers and index otherwise, offset = its block's end (0 for samplers), and a local its 4-aligned range |
| ShaderSystem.AppendKeepsLayout | engine/src/systems/shader_system.c:457-506 | after uniform_add the layout holds; the entry's scope block grows by its size and the others stay |
| ShaderSystem.AddKeepsTotals | engine/src/systems/shader_system.c:457-506 | the table stays in agreement: the entry is last and under its name, and global_ubo_size, ubo_size, push_constant_size and the ranges grow as the source adds |
| ShaderSystem.LocalsAligned | engine/src/systems/shader_system.c:482-491 | the push-constant block always ends on a multiple of 4 |
| ShaderSystem.ScopeSizeMonotone | engine/src/systems/shader_system.c:468-506 | a scope's block only grows as uniforms are added |
| ShaderSystem.NoOverlap | engine/src/systems/shader_system.c:468-491 | two sized uniforms of one scope never overlap |
| ShaderSystem.InsideBlock | engine/src/systems/shader_system.c:468-506 | every uniform lies inside its scope's block |
| ShaderSystem.NameTestInverted | engine/src/systems/shader_system.c:511-526 | as written only the empty name passes; as intended a fresh non-empty name passes and the empty one does not |
| ShaderSystem.LookupAsWritten | engine/src/systems/shader_system.c:131-133 | as written an unset name reads as the unknown fill value, a set one as its location |
| ShaderSystem.LookupFillDecides | engine/src/systems/shader_system.c:518-519 | a name not yet added passes the lookup test exactly when the uninitialised fill is 0xFFFF; with that fill and every stored location below it, the test is exactly "not in the lookup" (also lines 131-133) |
| ShaderSystem.Shader.constructor | engine/src/systems/shader_system.c:106-158 | a shader created by the renderer: nothing added, every total 0, state UNINITIALIZED |
| ShaderSystem.Shader.AddAttribute | engine/src/systems/shader_system.c:319-360 | always true; the attribute is appended with its type's size and the stride grows by it, nothing else changes |
| ShaderSystem.Shader.UniformAdd | engine/src/systems/shader_system.c:447-509 | refused with no change past max_uniform_count or for a local on a shader without locals; otherwise the table becomes WithUniform of the old one |
| ShaderSystem.Shader.AddUniform | engine/src/systems/shader_system.c:419-426 | true exactly for a valid fresh name, state UNINITIALIZED and uniform_add's conditions (room for one more uniform; a local only when the shader uses locals); then the table is uniform_add's with location 0, else unchanged; every other field of the shader is unchanged (also lines 511-535) |
| ShaderSystem.Shader.AddSampler | engine/src/systems/shader_system.c:362-417 | true exactly when the scope suits a sampler on this shader, the name is valid and free, the state is UNINITIALIZED, the scope's texture count is below its limit and uniform_add has room; the scope's texture count is raised exactly when all but the last test pass, so it stays raised when uniform_add refuses; on success the table gains the sampler at the old count as its location; no other field changes (also lines 528-535) |
| ShaderSystem.NewShaderId | engine/src/systems/shader_system.c:438-445 | the lowest free slot, or INVALID_ID exactly when every slot is taken |
| ShaderSystem.CreateWritesPastEnd | engine/src/systems/shader_system.c:97-104 | as written, a full one-shader system has create zero shaders[INVALID_ID], far past the array |
| ShaderSystem.System.constructor | engine/src/systems/shader_system.c:36-72 | no current shader, every slot free, no names |
| ShaderSystem.System.GetById | engine/src/systems/shader_system.c:198-206 | null exactly past max_shader_count or for a free slot; otherwise that shader |
| ShaderSystem.System.UseById | engine/src/systems/shader_system.c:224-249 | true with no change for the current shader; false and no change for a missing one; otherwise it becomes current and the result is the renderer's |
| ShaderSystem.System.Create | engine/src/systems/shader_system.c:95-192 | the lowest free slot is claimed only when one exists (a full table returns false with nothing written); it stays claimed if the renderer fails; only on success is the name looked up to it |
| ResourceSystem.LoaderIds | engine/src/systems/resource_system.c:97-98 | the ids the free-slot search reads, slot by slot |
| ResourceSystem.RegisterKeepsValid | engine/src/systems/resource_system.c:73-111 | a refused loader changes nothing; an accepted one had no type or custom-name clash, took the lowest free slot with id = its index, and no other slot changed; the registry invariant (one loader per type) is kept; a slot with a null custom type never clashes by name |
| ResourceSystem.RegisterAllKeepsValid | engine/src/systems/resource_system.c:46-57 | registering the built-ins in order keeps the invariant and the slot count |
| ResourceSystem.RegisterFullReportsSuccess | engine/src/systems/resource_system.c:97-110 | as written, registering into a full array returns true though nothing was stored; the intended result is false |
| ResourceSystem.OneCustomLoader | engine/src/systems/resource_system.c:80-94 | the type test comes first, so a second custom loader is refused whatever its custom name |
| ResourceSystem.ClashesAsWritten | engine/src/systems/resource_system.c:87-89 | as written the test dereferences null exactly when the types differ, the new loader has a non-empty custom name and the slot's custom type is null; otherwise it decides as Clashes |
| ResourceSystem.ClashScanAsWritten | engine/src/systems/resource_system.c:80-95 | when the clash loop as written gets through, it decides as the corrected test; a null dereference needs a slot that causes one |
| ResourceSystem.RegisterCustomReadsNull | engine/src/systems/resource_system.c:80-95 | once a built-in loader with a null custom type holds slot 0, registering a custom loader with a non-empty name dereferences that null as written; the corrected registration accepts the loader when a second slot is free (also lines 54-57) |
| ResourceSystem.MatchesAsWritten | engine/src/systems/resource_system.c:164 | as written the test dereferences null exactly for a custom query against a custom slot whose custom type is null; otherwise it decides as Matches |
| ResourceSystem.MatchScanAsWritten | engine/src/systems/resource_system.c:157-167 | when the load_custom loop as written gets through, it finds what FirstMatch finds; otherwise some slot dereferences null |
| ResourceSystem.LoadCustomReadsNull | engine/src/systems/resource_system.c:157-167 | register accepts a custom loader with a null custom type; a later load_custom of any name dereferences that null as written, while the corrected search finds no loader (also lines 80-95) |
| ResourceSystem.FirstMatch | engine/src/systems/resource_system.c:127-137 | None exactly when no slot answers; otherwise an answering slot with none before it (also lines 157-167) |
| ResourceSystem.FirstMatchUnique | engine/src/systems/resource_system.c:127-137 | an answering slot with none before it is the one the scan stops at (also lines 157-167) |
| ResourceSystem.LoadOutcomeSound | engine/src/systems/resource_system.c:157-173 | a load always writes loader_id; a written valid id is an answering loader with a load callback, the only one of its type; success needs a name, a match and the callback's success (also lines 127-141, 215-223) |
| ResourceSystem.RegisteredIsFound | engine/src/systems/resource_system.c:127-136 | a loader just registered is the one a load of its type finds (also lines 97-100) |
| ResourceSystem.UnloadTarget | engine/src/systems/resource_system.c:183-202 | an unload reaches only the resource's own loader, and only when it has an unload callback; nothing for null or INVALID_ID |
| ResourceSystem.LoadThenUnload | engine/src/systems/resource_system.c:188-202 | a resource loaded successfully is unloaded by the loader that loaded it, when it has an unload callback (also lines 215-223) |
| ResourceSystem.System.constructor | engine/src/systems/resource_system.c:18 | before initialise there is no state |
| ResourceSystem.System.Initialize | engine/src/systems/resource_system.c:22-63 | fails with no change for max_loader_count = 0; otherwise every slot is free and the built-ins are registered in order |
| ResourceSystem.System.Shutdown | engine/src/systems/resource_system.c:65-71 | the state is detached |
| ResourceSystem.System.Register | engine/src/systems/resource_system.c:73-111 | false before initialise; otherwise RegisterResult, so the invariant is kept |
| ResourceSystem.System.FindLoader | engine/src/systems/resource_system.c:127-137 | the scan returns FirstMatch (also lines 157-167) |
| ResourceSystem.System.Dispatch | engine/src/systems/resource_system.c:215-223 | INVALID_ID and false without a name or a load callback; otherwise the loader's id and the callback's result |
| ResourceSystem.System.Load | engine/src/systems/resource_system.c:113-142 | fails without writing before initialise or for RESOURCE_TYPE_CUSTOM; otherwise LoadOutcome for the type |
| ResourceSystem.System.LoadCustom | engine/src/systems/resource_system.c:144-174 | fails without writing before initialise or for a null custom type; otherwise LoadOutcome for the custom name, where a custom slot with a null custom type does not match |
| ResourceSystem.System.Unload | engine/src/systems/resource_system.c:176-203 | nothing before initialise; otherwise UnloadTarget |
| ConfigLine.ParseSkips | engine/src/resources/loaders/material_loader.c:49-80 | a line is skipped exactly when it trims to nothing, starts with '#' or has no '='; otherwise the key holds no '=' and key and value have no surrounding whitespace |
| ConfigLine.TrimmedSubset | engine/src/resources/loaders/material_loader.c:72 | trimming only drops characters (also line 80) |
| ConfigLine.TrimmedOfTrim | engine/src/resources/loaders/material_loader.c:72 | a string without outer whitespace trims to itself (also line 80) |
| ConfigLine.TrimmedIdempotent | engine/src/resources/loaders/material_loader.c:50 | trimming twice is trimming once (also line 72) |
| ConfigLine.ParseRoundTrip | engine/src/resources/loaders/material_loader.c:49-80 | writing key=value and reading the line back gives that key and value, for a trimmed key without '=' or a leading '#' and a trimmed value |
| ConfigLine.NoOuterSpace | engine/src/resources/loaders/material_loader.c:72 | a string that trims to itself has no outer whitespace (also line 80) |
| ConfigLine.ReadLine | engine/src/resources/loaders/material_loader.c:48-80 | the trim, the blank/comment test, the '=' search and the key/value cut give Parse of the line |
| MaterialLoader.Defaults | engine/src/resources/loaders/material_loader.c:35-41 | the requested name cut to MATERIAL_NAME_MAX_LENGTH, shader "Builtin.Material", auto_release true, no diffuse map |
| MaterialLoader.KeyCaseInsensitive | engine/src/resources/loaders/material_loader.c:83-100 | keys that differ only in case select the same field |
| MaterialLoader.StoredIsPrefix | engine/src/resources/loaders/material_loader.c:85-99 | name and diffuse_map_name keep the value's prefix that fits their buffer, and the whole value exactly when it fits; shader keeps the whole value |
| MaterialLoader.LastLineWins | engine/src/resources/loaders/material_loader.c:48-107 | each of name, diffuse_map_name and shader ends as what it stores of its last line's value, or its starting value if no line sets it; auto_release never changes |
| MaterialLoader.PairSetsOneField | engine/src/resources/loaders/material_loader.c:83-100 | a pair sets only the field its key names; version, diffuse_colour and unknown keys change none of the modelled fields |
| MaterialLoader.AppendedLineSets | engine/src/resources/loaders/material_loader.c:48-107 | appending name=v (or shader=v, diffuse_map_name=v) makes v that field's final value, whatever came before |
| MaterialLoader.LoadMaterialConfig | engine/src/resources/loaders/material_loader.c:35-107 | the defaults for the name, then every line applied in file order |
| ShaderLoader.StagesOf | engine/src/resources/loaders/shader_loader.c:111-125 | no more stages than names |
| ShaderLoader.StagesOfExact | engine/src/resources/loaders/shader_loader.c:111-125 | every recognised name gives one stage, and names none of which is recognised give none |
| ShaderLoader.AppendStages | engine/src/resources/loaders/shader_loader.c:111-125 | the loop appends the stages of the first stage_count names, or of all of them when stage_count is larger, in order |
| ShaderLoader.LoaderSizeIsBytes | engine/src/resources/loaders/shader_loader.c:152-264 | every size in the attribute table is the type's component count times its component bytes |
| ShaderLoader.LoaderSizeAgainstShaderSystem | engine/src/resources/loaders/shader_loader.c:152-264 | the loader's sizes agree with add_attribute's for the scalars and float vectors; for mat4 the loader says 64 where add_attribute uses 4 |
| ShaderLoader.UniformSizes | engine/src/resources/loaders/shader_loader.c:286-332 | the table never yields a custom uniform, and only a sampler has size 0 |
| ShaderLoader.ScopeRoundTrip | engine/src/resources/loaders/shader_loader.c:334-347 | each scope reads back from its digit; only "0", "1", "2" are read as themselves and anything else is global |
| ShaderLoader.KeyCaseInsensitive | engine/src/resources/loaders/shader_loader.c:91-277 | keys that differ only in case select the same field |
| ShaderLoader.ApplyPairAppends | engine/src/resources/loaders/shader_loader.c:90-360 | a pair only appends: the attribute and uniform lists grow by at most one, the stage list keeps its prefix, and a stage_count already set never changes |
| ShaderLoader.StageCountFromFirstList | engine/src/resources/loaders/shader_loader.c:104-109 | the first of stages or stagefiles sets stage_count to its number of fields cut to the u8 field, which is the number itself below 256 (also lines 133-138) |
| ShaderLoader.ToU8 | engine/src/resources/loaders/shader_loader.c:105 | the u8 a count is stored in is below 256, and is the count itself when that is below 256 (also line 134) |
| ShaderLoader.CountsIncrementInU8 | engine/src/resources/loaders/shader_loader.c:272 | one pair raises attribute_count and uniform_count by the entries it appended, modulo 256 (also line 355) |
| ShaderLoader.CountsFollowLists | engine/src/resources/loaders/shader_loader.c:272 | the counts equal the list lengths exactly while those are below 256; a 256th entry wraps a count to 0 (also line 355) |
| ShaderLoader.StagesReadPastEnd | engine/src/resources/loaders/shader_loader.c:104-125 | as written, with stage_count 3 from stagefiles, a 2-name stages line reads a third name past the end; the bounded loop parses the 2 names |
| ShaderLoader.ApplyLinesAppends | engine/src/resources/loaders/shader_loader.c:56-360 | reading lines only appends to the attribute, uniform and stage lists, so file order is kept |
| ShaderLoader.ProcessPair | engine/src/resources/loaders/shader_loader.c:90-360 | the key dispatch, with the split and the stage loop, gives ApplyPair |
| ShaderLoader.LoadShaderConfig | engine/src/resources/loaders/shader_loader.c:36-360 | the empty configuration, then every line applied in file order, with stage_count kept in a u8 |

## Left out

- File I/O is not modelled. Each loader is given the lines of its file. Two consequences:
  - the loaders' `true` result when the file cannot be opened is not modelled;
  - the 511-character read limit appears only as `ReadLine`'s precondition.
- Platform and renderer calls are not modelled: the vmm reserve/commit/release calls, the renderer's texture, geometry and shader calls, and the resource loaders' callbacks. Each becomes a success flag or predicate.
- Floating point is not modelled: vertex positions, texture coordinates, the material diffuse colour and `string_to_vec4`. Only the plane's vertical extent is modelled, over the reals.
- The hash table and darray implementations are not part of this model. A hash table is a total map whose default is the filled value; `hashtable_set` never fails. The shader's uniform lookup is the exception: it is filled from an uninitialised value (see Findings), and the model reads a name it does not hold as INVALID_ID_U16, the intended fill. A darray is a sequence.
- These constants are defined in headers that are not part of this model, so their values are assumed:
  - INVALID_ID 0xFFFFFFFF;
  - the 256 keys of the keyboard state and 3 mouse buttons;
  - the default texture, material and geometry names "default";
  - RESOURCE_TYPE_CUSTOM 5;
  - MATERIAL_NAME_MAX_LENGTH 256 and TEXTURE_NAME_MAX_LENGTH 512.
- `get_aligned_range`, called at engine/src/systems/shader_system.c:484, is defined outside this model. `ShaderSystem.AlignedRange` assumes it rounds both the offset and the size up to a multiple of the granularity 4.
- Word width:
  - The bit array's u64 words are modelled as 64-element bit sequences.
  - The u32 and u64 reference counts, generations and counters are unbounded; wrap-around is written out only where a finding depends on it.
  - The shader configuration's u8 counts are written out: `stage_count` is cut to 8 bits, and `attribute_count` and `uniform_count` are the list lengths modulo 256.
- Material shader-location caching (engine/src/systems/material_system.c:221-250) is not modelled. It passes a u32 where a name is expected.
- The vmm header declares a pool's page map as `void *array`, while vmm_system.c uses it as a bitarray. The model follows vmm_system.c.
- The fallback `kclz_u64` in utils.h tests an undeclared `n` at line 37. `Utils.Clz` models the evidently intended `x`.
- The `raw_variable_name[64]` and `raw_value[446]` buffers of both loaders are not modelled; a longer key or value would overflow them. `ReadLine` keeps keys and values whole.
- Shader system:
  - The lookups by name (`shader_system_get_id`, `shader_system_get`, `shader_system_use`), `shader_system_uniform_index`, the setters, `apply_*`, `bind_instance`, shutdown and `shader_destroy` are not modelled. They forward to the hash table and the renderer and keep no counts.
  - The 32-entry `push_constant_ranges` array is not bounded in the model.
  - The u16 `attribute_stride` does not wrap in the model.
- `resource_system_base_path` is not modelled: it only returns a configured string.
- Shutdown of the texture, material and resource systems only detaches the state; the renderer-side destruction is not modelled.
- TextureSystem.System.Release: the model writes the updated reference under the name as given. The C code writes it under `name_copy`, which is cut to TEXTURE_NAME_MAX_LENGTH (engine/src/systems/texture_system.c:207-208, 231). The two differ only for names longer than that.
- GeometrySystem.GeneratePlaneConfig: names are not cut to GEOMETRY_NAME_MAX_LENGTH, and the vertex data is not modelled. The u32 `v_offset` and `i_offset` of the quad loop (engine/src/systems/geometry_system.c:343, 370-376) wrap when the plane's counts do not fit in 32 bits; `PlaneIndices` computes them without wrap-around, and the count overflow itself is in Findings.
- ShaderLoader.LoaderSizeAgainstShaderSystem: states the comparison for the scalars, the float vectors and mat4 only. For the integer vectors the loader's table is covered by `ShaderLoader.LoaderSizeIsBytes`.
- Freelist.FreeList.constructor: requires a total of at least 16 bytes (two nodes). freelist_create accepts any total, but below 16 bytes it writes outside its nodes or over its only range (see Findings).
- DynamicAllocator.Allocator.constructor: takes any u64 total, but requires the u32 the free list receives (the total cut to 32 bits) to be at least 16 bytes, because the free list is created with it (engine/src/memory/dynamic_allocator.c:37-40); smaller values reach the freelist_create defect in Findings.
- LinkedList.List.RemoveAt: models `linkedlist_iterator_remove` (engine/src/containers/linkedlist.c:349-351) only as a removal at the iterator's index. In the C code the iterator still points at the removed node afterwards. `ll_return_node` (engine/src/containers/linkedlist.c:368-379) has put that node at the head of the free chain, its `next` set to the old free head, so a following `linkedlist_iterator_next` walks the free chain instead of the list. The model's iterator is a position in the values, not a node, so it cannot express this.
- GeometrySystem.System.Release: requires an id below max_geometry_count. geometry_system_release (engine/src/systems/geometry_system.c:121-148) tests only for null and INVALID_ID before indexing; the ids that reach it come from acquire, which hands out slot indices only.
- ResourceSystem.System.Unload: requires a loader id below the number of loader slots. resource_system_unload (engine/src/systems/resource_system.c:186-202) tests only for INVALID_ID; the id comes from a load, which writes the index of a registered slot.
- The vmm's `pages_reserved + page_amount` and `pages_mapped + page_amount` (engine/src/systems/vmm_system.c:95, 140) are u32 sums that can wrap past their limit test. The model adds without wrap-around.
- Vmm.Manager.ReleasePagePool: takes the platform's answer as a flag. `vmm_release_page_pool` (engine/src/systems/vmm_system.c:209) releases from the pool's base address, which lies past its bitarray pages, with the size of the pool's own pages; which memory that covers is not modelled.
- ShaderLoader.LoadShaderConfig: the configuration keeps the whole attribute and uniform lists, and `AttributeCount` and `UniformCount` give their u8 counts. `shader_system_create` adds only the first `attribute_count` attributes and `uniform_count` uniforms (engine/src/systems/shader_system.c:161, 166); that loop is not part of this model, so what a shader with 256 or more of either receives is described only by those counts.
- ShaderLoader.StageCountFromFirstList: states stage_count cut to a u8, as the C code stores it; the stage loop then parses only that many names, so 256 or more stage names give a short or empty stage list, which the model computes but no lemma singles out.
- The shader loader sets `data_size` to `sizeof(material_config)` (engine/src/resources/loaders/shader_loader.c:372); resource data sizes are not modelled.
- `string_split` gathers each piece in a 16384-byte stack buffer (engine/src/core/kstring.c:286) without a bound test. The model's pieces have no length limit, so a longer piece overrunning the buffer is not captured.
- The `string_duplicate` and `string_ncopy` copies of names become sequence copies. strncpy's missing terminator at the buffer limit is not modelled.

## Findings

| source | as written | input that shows it | evidently intended | confidence | as-written member | corrected member |
|---|---|---|---|---|---|---|
| engine/src/core/kstring.c:311-313 | `string_split` pops each closed entry from the array | "a,b" with `,` | every kept entry is pushed | not executed | KString.SplitAsWritten, KString.SplitAsWrittenLosesEntries | KString.StringSplit |
| engine/src/containers/bitarray.c:118-124 | `count_set` also counts the word after the last one | a length that is a multiple of 64, with a set bit in the next word | only the bits below length are counted | not executed | BitArray.CountSetAsWritten, BitArray.CountSetReadsPastEnd | BitArray.BitArray.CountSet |
| engine/src/containers/bitarray.c:24-25 | the requirement is `DIV_CEIL(length, 8)` bytes, though whole u64 words are accessed | length 10: 2 bytes, while the first access reads 8 | whole words: 8 bytes per word | not executed | BitArray.CreateRequirementAsWritten, BitArray.CreateRequirementTooSmall | BitArray.WordBytes |
| engine/src/containers/freelist.c:183-193 | a middle insert does not test the block against the previous range | free 50 bytes at 10 next to the free range [0, 100) | the block must not overlap a free range | not executed | Freelist.FreeGuardAsWritten, Freelist.FreeAcceptsOverlap | Freelist.FreeList.FreeBlock |
| engine/src/containers/freelist.c:133 | `offset + size` is a u32 sum | offset 16, size 2^32 − 8 | the bound test does not wrap | not executed | Freelist.FreeGuardAsWritten, Freelist.FreeBoundWraps | Freelist.FreeList.FreeBlock |
| engine/src/containers/freelist.c:140-141, 171-172, 220-221 | `get_node`'s null result is dereferenced | a full node array and a free that needs a new node | the free is refused with no change | not executed | Freelist.FreeDereferencesNull, Freelist.FreeNullExample | Freelist.FreeList.FreeBlock |
| engine/src/containers/freelist.c:227-241 | clear resets node 0 to [0, total_size) with a null next and sets the offset and size of nodes 1 onward to INVALID_ID, but never rebuilds the spare chain: `free_node_head` and the `next` links stay as they were | a 16-byte, two-node list after allocating all 16 bytes, whose spare chain is [0, 1]; or one whose ranges sit in nodes 1 and 0, with no spare node | node 0 holds [0, total_size) and every other node is on the spare chain | not executed | Freelist.ClearSpareAsWritten, Freelist.ClearAsWrittenBreaksNodes | Freelist.FreeList.Clear |
| engine/src/containers/freelist.c:57-65 | `freelist_create` computes `max_entries - 1` in u32 and writes the last node there, whatever max_entries is | total_size 12: max_entries 1, so node 0, the only range, is set to INVALID_ID; total_size 4: max_entries 0, and the index wraps to 0xFFFFFFFF | at least two nodes, or a refusal of smaller totals | not executed | Freelist.CreateLastNodeAsWritten, Freelist.CreateSmallTotalBreaks | Freelist.FreeList.constructor |
| engine/src/memory/linear_allocator.c:68-70 | `allocated + size + padding` is a u64 sum | a request of 2^64 − 5 bytes | the bound test does not wrap | not executed | LinearAllocator.FitsAsWritten, LinearAllocator.AllocateBoundWraps | LinearAllocator.Allocator.Allocate |
| engine/src/systems/vmm_system.c:279 | `page_to_bytes` multiplies in u32 | 2^20 pages of 4096 bytes give 0 | a 64-bit byte count | not executed | Vmm.PageToBytesAsWritten, Vmm.PageToBytesWraps | Vmm.Manager.NewPagePool |
| engine/src/containers/linkedlist.c:56, 83 | `max_nodes - 1` is a u64 difference | max_nodes 0 | an empty pool with an empty free chain | not executed | LinkedList.ChainLinksAsWritten, LinkedList.EmptyPoolChainWraps | LinkedList.List.constructor |
| engine/src/core/input.c:38 | `kzero_memory(state_ptr, sizeof(state))` clears a pointer's 8 bytes, `state` being the pointer parameter | memory holding key 100 down | the whole state is zeroed | not executed | Input.ZeroedAsWritten, Input.StaleKeyAfterInitialize | Input.InputSystem.constructor |
| engine/src/systems/material_system.c:252-256, 394-395 | `load_material` zeroes the slot before its generation is read | any first load of a slot; any failed load | a free slot starts at generation 0, and a failed load leaves it free | not executed | MaterialSystem.FreshLoadAsWritten, MaterialSystem.FreshGenerationIsOne, MaterialSystem.FailedLoadLeaksSlot | MaterialSystem.FreshLoad |
| engine/src/systems/geometry_system.c:328 | `seg_height = height / x_segment_count` | a 1 × 2 plane of height 2 reaches 3 | height / y_segment_count | not executed | GeometrySystem.SegHeightAsWritten, GeometrySystem.PlaneTooTall | GeometrySystem.TopEdgeCentred |
| engine/src/systems/geometry_system.c:318-324 | `vertex_count` and `index_count` are u32 products, and the buffers are allocated from them, while the loops write every quad | 2^15 × 2^15 segments: vertex_count wraps to 0 and index_count to 2^31, yet 2^30 quads are written | counts that do not fit in a u32 are refused | not executed | GeometrySystem.PlaneShape, GeometrySystem.PlaneCountsWrap | GeometrySystem.PlaneCountsChecked |
| engine/src/systems/geometry_system.c:81-83 | `acquire_by_id` tests only INVALID_ID before indexing | id 4 with 4 slots | ids past max_geometry_count are refused | not executed | GeometrySystem.AcquireByIdReadAsWritten, GeometrySystem.AcquireByIdReadsPastEnd | GeometrySystem.System.AcquireById |
| engine/src/systems/shader_system.c:512 | `!uniform_name \|\| string_length(uniform_name)` refuses every non-empty name | the name "model" | a null or empty name is refused | not executed | ShaderSystem.NameValidAsWritten, ShaderSystem.NameTestInverted | ShaderSystem.Shader.AddUniform |
| engine/src/systems/shader_system.c:97-104 | create zeroes `shaders[id]` before testing id for INVALID_ID | a full one-shader system | the test comes first | not executed | ShaderSystem.CreateSlotAsWritten, ShaderSystem.CreateWritesPastEnd | ShaderSystem.System.Create |
| engine/src/systems/resource_system.c:97-110 | register returns true when no slot is free | a one-slot system already holding a loader | false when nothing was stored | not executed | ResourceSystem.RegisterOkAsWritten, ResourceSystem.RegisterFullReportsSuccess | ResourceSystem.RegisterKeepsValid |
| engine/src/resources/loaders/shader_loader.c:104-125 | the stage loop runs to stage_count, which may come from a longer stagefiles line | stagefiles with 3 files, then stages with 2 names | parse only the names there are | not executed | ShaderLoader.StagesAsWritten, ShaderLoader.StagesReadPastEnd | ShaderLoader.AppendStages |
| engine/src/systems/resource_system.c:87-89 | the clash test calls `strings_equali` on every slot's custom type, which is null for the built-in loaders registered first | initialise, then register a custom loader named "foo" | a slot with a null custom type never clashes by name | not executed | ResourceSystem.ClashesAsWritten, ResourceSystem.RegisterCustomReadsNull | ResourceSystem.RegisterKeepsValid |
| engine/src/systems/resource_system.c:164 | `load_custom` calls `strings_equali` on a custom slot's custom type, which may be null | a custom loader registered with a null custom type, then `load_custom` of any name | a custom slot with a null custom type does not match | not executed | ResourceSystem.MatchesAsWritten, ResourceSystem.LoadCustomReadsNull | ResourceSystem.System.LoadCustom |
| engine/src/systems/shader_system.c:131-133 | the uniform lookup is filled from an uninitialised `u32 invalid_id`, so an unset name reads as an unknown u16 | any fill other than 0xFFFF, then a uniform with a fresh name | every unset name reads as INVALID_ID_U16 | not executed | ShaderSystem.LookupAsWritten, ShaderSystem.LookupFillDecides | ShaderSystem.Shader.constructor |
| engine/src/core/kstring.c:327-333 | with trimming, the last piece is trimmed as a C string, but the buffer is terminated only once a delimiter has cleared it | "ab" split with trimming and a stray 'c' on the stack behind the piece | the piece is terminated before it is trimmed | not executed | KString.LastEntryAsWritten, KString.LastEntryReadsStack | KString.StringSplit |
| engine/src/containers/bitarray.c:49 | `start_index + size` is a u64 sum, so the bound test can pass after wrapping | a 64-bit array, start 8, size 2^64 − 4: the sum wraps to 4, and fill_range gets an end below its start | the bound test does not wrap | not executed | BitArray.FillRangeGuardAsWritten, BitArray.FillRangeBoundWraps | BitArray.BitArray.FillRange |
