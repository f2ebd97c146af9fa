# wall-e allocator in Dafny

A model of wall-e, the AssemblyScript allocator in `assembly/wall-e.ts` that
manages a growable WebAssembly linear memory. Its whole state is two globals
and the memory itself:

- `list` is the head of the free list, and `heap` is the high-water mark, which starts at 8 so that address 0 can be `nil`;
- every block is an 8-byte header followed by its payload. Word `[ep]` holds the logical size while the block is allocated, and the link to the next free block while it is free. Word `[ep+4]` holds the effective size, which is fixed when `bump` carves the block. Callers see `ep + 8`.

The model has four modules:

- `Memory` (memory.dfy): linear memory as a byte sequence, with little-endian `load<u32>`/`store<u32>`, `memory.copy` with memmove semantics, and `memory.grow`'s zero-filled pages.
- `FitPolicy` (fit_policy.dfy): `best_fit`'s decision over the effective sizes of the free blocks in list order. `Choose` is a recursive reference definition. `IsChoice` states the same decision declaratively, and `ChooseIsChoice` proves the two agree.
- `BlockLayout` (block_layout.dfy): the invariants over explicit values. `WellPlaced` says the blocks lie between 8 and `heap` without overlapping and word `[h+4]` stores each effective size. `WellChained` says `list` threads the free blocks through their link words, ending in `nil`, and every allocated block's logical size is at most its effective size. `LiveKept` says every allocated block keeps its header word and payload. The lemmas show what each store, copy and grow does to these.
- `WallE` (wall_e.dfy): the allocator as one class, `WallE.Allocator`. It has fields `list`, `heap`, `mem`, `pages` and `maxPages`, plus ghost `Blocks` (header address to effective size) and ghost `Free` (the free blocks in list order). `bump`, `repurpose`, `allocate`, `deallocate` and `reallocate` are methods that change those fields in place and keep `Valid()`. `best_fit` is a method that reads them and changes nothing, and `size` is a function. The walks in `best_fit` and `repurpose` are `while` loops with invariants.

Arithmetic follows the source's u32 rules:

- `ls + ls / 4` wraps modulo 2^32, in `FitPolicy.Tolerance`.
- `heap + ls + 8` would wrap in the source; see Findings.
- `memory.size() * 0x10000` fits because the host limit is below 65536 pages.

## Model

| member | source | states |
|---|---|---|
| Memory.Store32 | assembly/wall-e.ts:32-33 | `store<u32>` keeps the memory's length and every byte outside the four it writes |
| Memory.LoadOfStore | assembly/wall-e.ts:32-33 | reading back a stored word gives the stored value: the byte encoding round-trips |
| Memory.Load32 | assembly/wall-e.ts:22 | `load<u32>`: the little-endian word at a byte offset, as size, best_fit and repurpose read header words |
| Memory.StoreOfLoad | assembly/wall-e.ts:100-113 | storing the word just loaded changes no byte: the decoding round-trips too, which makes reallocate(p, size(p)) leave memory unchanged |
| Memory.LoadOfStoreElsewhere | assembly/wall-e.ts:85 | a store leaves every word it does not overlap unchanged, e.g. deallocate keeps word [p-4] |
| Memory.Copy | assembly/wall-e.ts:108 | `memory.copy`: the destination range holds what the source range held, and every other byte is kept |
| Memory.LoadOfCopyElsewhere | assembly/wall-e.ts:108 | a copy leaves every word outside its destination unchanged |
| Memory.Zeros | assembly/wall-e.ts:30 | the pages `memory.grow` adds are zero bytes |
| Memory.Grown | assembly/wall-e.ts:30 | after growing, memory is exactly the requested number of pages long |
| FitPolicy.Tolerance | assembly/wall-e.ts:54 | best_fit's ceiling `ls + ls / 4`, evaluated modulo 2^32 as u32 arithmetic does |
| FitPolicy.Candidate | assembly/wall-e.ts:48 | a block the scan keeps as best so far: larger than the request and below bs's initial u32.MAX_VALUE |
| FitPolicy.FirstExact | assembly/wall-e.ts:45-47 | a found position holds exactly the requested size |
| FitPolicy.FirstExactIsFirst | assembly/wall-e.ts:45-47 | the scan's exact match is the first exact fit in list order, and none is found iff no block fits exactly |
| FitPolicy.Smallest | assembly/wall-e.ts:48-51 | a found position holds a size strictly between the request and u32.MAX_VALUE |
| FitPolicy.SmallestIsLeast | assembly/wall-e.ts:48-51 | the tracked best fit has the least candidate size, is the first in list order among equals, and is absent iff no block is a candidate |
| FitPolicy.Choose | assembly/wall-e.ts:41-56 | best_fit's chosen block is large enough for the request |
| FitPolicy.ChoiceIsUnique | assembly/wall-e.ts:41-56 | at most one position satisfies the declarative best-fit rule |
| FitPolicy.ChooseIsChoice | assembly/wall-e.ts:41-56 | best_fit returns k iff k is the first exact fit, or else the first least larger block within the tolerance; it returns nil iff no position qualifies |
| FitPolicy.ToleranceIsFiveQuarters | assembly/wall-e.ts:54 | below the wrap point, the tolerance is exactly `ls + ls / 4`, which equals 125% of the request rounded down |
| FitPolicy.ScanStep | assembly/wall-e.ts:45-53 | one loop iteration: an exact fit ends the scan at the first one, and otherwise bs/bf update to the running least candidate |
| FitPolicy.ChoiceExactAt | assembly/wall-e.ts:47 | the first exact fit in list order is the position the scan returns |
| BlockLayout.Disjoint | assembly/wall-e.ts:27-37 | blocks carved at successive high-water marks never overlap |
| BlockLayout.IndexOf | assembly/wall-e.ts:60-68 | the position of a free block in the list: it holds that block, and no earlier position does |
| BlockLayout.Without | assembly/wall-e.ts:64 | unlinking position k keeps the order of every other free block |
| BlockLayout.FreeBlockAt | assembly/wall-e.ts:46-52 | each free block's link word holds the next free block (or nil), and its size word holds its effective size |
| BlockLayout.ThreadedFrom | assembly/wall-e.ts:42-53 | following link words from `list` visits exactly the free blocks in order and ends in nil |
| BlockLayout.Push | assembly/wall-e.ts:83-87 | pushing an allocated block keeps both invariants with the block as new head, and keeps every other allocated block |
| BlockLayout.Unlink | assembly/wall-e.ts:62-70 | skipping a non-head free block and writing its logical size keeps both invariants and every allocated block |
| BlockLayout.UnlinkHead | assembly/wall-e.ts:60-72 | reviving the head keeps both invariants once `list` moves to the head's old link |
| BlockLayout.StoreHeader | assembly/wall-e.ts:32-33 | bump's two header stores write only the 8 header bytes at h and keep every other byte |
| BlockLayout.Carve | assembly/wall-e.ts:32-35 | the header stores at `heap` add a block whose words both hold ls, keep both invariants and keep every other block |
| BlockLayout.Grows | assembly/wall-e.ts:29-30 | growing memory keeps both invariants and every allocated block |
| BlockLayout.SetLogical | assembly/wall-e.ts:103-113 | storing a new logical size no larger than the effective size keeps both invariants |
| BlockLayout.CopyIntoBlock | assembly/wall-e.ts:108 | copying at most a block's effective size into its payload keeps both invariants |
| BlockLayout.CopyFacts | assembly/wall-e.ts:108 | the relocation copy keeps both invariants and every allocated block other than the destination |
| BlockLayout.MoveFacts | assembly/wall-e.ts:107-110 | the copy plus deallocate's link store keep the destination's header and give its payload the source's bytes; every other allocated block is kept |
| BlockLayout.RelocationKeepsLive | assembly/wall-e.ts:106-110 | allocate then move keeps every block allocated beforehand, except the one moved away from |
| BlockLayout.WithinAddressSpace | assembly/wall-e.ts:28-29 | memory, heap and every block end fit in 32-bit addresses |
| WallE.SpaceAsWritten | assembly/wall-e.ts:28 | the u32 sum `heap + ls + 8` lands below `heap + 8` iff the true sum does not fit in 32 bits |
| WallE.SpaceAsWrittenLowersHeap | assembly/wall-e.ts:28-35 | from the initial mark 8, a request of 0xFFFF_FFF0 bytes sets `heap` to 0 |
| WallE.Fits | assembly/wall-e.ts:29-30 | bump's capacity test: space fits in the current pages, or the host can grow to one page more than space / 0x10000 |
| WallE.PagesFor | assembly/wall-e.ts:29-30 | the page count after bump's test covers `space`, never shrinks, is unchanged iff `space` already fits, and stays within the host limit |
| WallE.ScanFreeList | assembly/wall-e.ts:41-56 | best_fit's loop returns the free block `Choose` selects, or nil |
| WallE.FindParent | assembly/wall-e.ts:61-68 | repurpose's loop finds ep's predecessor in the free list, or nil when ep is the head |
| WallE.Skipped | assembly/wall-e.ts:62-68 | the memory after repurpose's unlink: ep's predecessor's link word holds ep's link, and when ep is the head memory is unchanged |
| WallE.WalkFacts | assembly/wall-e.ts:62-68 | for a free ep, the walk from `list` is threaded, stays inside memory, and meets ep exactly once |
| WallE.Revive | assembly/wall-e.ts:60-72 | repurpose keeps both invariants (with `list` moved when ep is the head), takes ep off the list, stores ls at [ep] and keeps every allocated block |
| WallE.HeadRepurposeAsWritten | assembly/wall-e.ts:62-70 | repurpose as written on the head leaves `list` naming the block just handed out: its link word is now ls and its size word still holds its effective size, so best_fit's first step would return it again; the block is off the free list and the free-list invariant fails |
| WallE.RelocateNilAsWritten | assembly/wall-e.ts:107-110 | reallocate as written with allocate giving nil copies the payload over the header of the block at 8 and breaks the layout invariant |
| WallE.HandedOut | assembly/wall-e.ts:75-80 | allocate only adds blocks and only takes blocks off the free list |
| WallE.Allocator.constructor | assembly/wall-e.ts:16-17 | the initial state is valid, with an empty free list and `heap` at 8 |
| WallE.Allocator.Size | assembly/wall-e.ts:21-23 | size(p) of a live block is at most its effective size |
| WallE.Allocator.Grow | assembly/wall-e.ts:30 | memory.grow returns the old page count and adds zero pages, or returns -1 and changes nothing |
| WallE.Allocator.Bump | assembly/wall-e.ts:27-37 | bump succeeds iff the space fits or the host can grow to it; on success it writes ls into both header words at the old heap, returns old heap + 8, and advances heap by ls + 8; on failure it returns nil with nothing changed; heap never decreases |
| WallE.Allocator.MakeRoom | assembly/wall-e.ts:28-31 | the capacity test passes iff space fits or the grow request is granted, and memory then grows to `PagesFor` pages |
| WallE.Allocator.Carve | assembly/wall-e.ts:32-35 | bump's stores create a live block of logical and effective size ls, and keep every other block |
| WallE.Allocator.Carved | assembly/wall-e.ts:32-35 | the state bump's stores leave is valid, with the new block live and sized ls |
| WallE.Allocator.BestFit | assembly/wall-e.ts:41-56 | best_fit over the allocator's free list returns the block `Choose` picks from the free sizes, or nil |
| WallE.Allocator.Walkable | assembly/wall-e.ts:62-68 | the allocator's free list can be walked safely from `list` |
| WallE.Allocator.SkipInList | assembly/wall-e.ts:62-68 | repurpose's loop rewrites ep's predecessor to skip ep, and changes nothing when ep is the head |
| WallE.Allocator.Revived | assembly/wall-e.ts:60-72 | the state repurpose leaves is valid, with ep live with size ls and every other block kept |
| WallE.Allocator.Repurpose | assembly/wall-e.ts:60-72 | repurpose takes ep off the free list, stores ls in [ep] only, keeps the effective size and returns ep + 8 |
| WallE.Allocator.CanBump | assembly/wall-e.ts:28-31 | bump's success condition: heap + ls + 8 fits in memory now or after the host grants the page request |
| WallE.Allocator.Reuse | assembly/wall-e.ts:76-79 | the free block allocate(s) reuses, by position: none for s == 0, and otherwise a block whose effective size covers s |
| WallE.Allocator.AllocPointer | assembly/wall-e.ts:75-80 | the pointer allocate(s) returns: nil iff s == 0 or there is neither a reusable block nor room to bump; otherwise a free block's pointer or the old heap + 8 |
| WallE.Allocator.Allocate | assembly/wall-e.ts:75-80 | allocate(0) is nil and changes nothing; otherwise it reuses the block best_fit picks, or bumps; a non-nil result is live with size s at most its effective size; every allocated block is kept |
| WallE.Allocator.Chosen | assembly/wall-e.ts:77-79 | best_fit's answer is nil iff no free block is reusable, and otherwise it is the chosen free block |
| WallE.Allocator.Deallocate | assembly/wall-e.ts:83-87 | a LIFO push: `list` becomes p-8, word [p-8] holds the old head, and word [p-4] is untouched |
| WallE.Allocator.Pushed | assembly/wall-e.ts:83-87 | the state deallocate's store and head update leave is valid, word [p-8] holds the old head, word [p-4] is unchanged, and every other allocated block is kept |
| WallE.Allocator.HeadReusedFirst | assembly/wall-e.ts:83-87 | the most recently freed block is handed back first to a request for exactly its effective size |
| WallE.Allocator.CapacityStored | assembly/wall-e.ts:102 | word [p-4] of a live block holds its effective size, and its payload lies in memory |
| WallE.Allocator.ContentsPrefix | assembly/wall-e.ts:108 | the first n bytes a live block holds are the memory bytes at p |
| WallE.Allocator.Reallocate | assembly/wall-e.ts:94-115 | reallocate(p, 0) frees p and returns nil; a size within the effective size is set in place and returns p; otherwise the result is allocate(s)'s block, holding p's first min(s, size(p)) bytes, with p pushed onto the free list, or nil with nothing changed |
| WallE.Allocator.ResizeToSizeKeepsMemory | assembly/wall-e.ts:100-113 | reallocate(p, size(p)) stores the logical size already at [p-8], so memory is unchanged |
| WallE.Allocator.SetSize | assembly/wall-e.ts:101-114 | the in-place path stores s at [p-8] only and keeps the payload prefix |
| WallE.Allocator.Relocate | assembly/wall-e.ts:106-110 | the moving path returns allocate(s)'s pointer, copies p's payload into it, frees p, and keeps every other block |
| WallE.Allocator.StillLive | assembly/wall-e.ts:107 | allocate keeps p live with its size and payload, and hands out a block other than p |
| WallE.Allocator.MoveInto | assembly/wall-e.ts:108-109 | copying into the new block and freeing p keeps both invariants; the new block holds p's bytes |
| WallE.Allocator.Movable | assembly/wall-e.ts:108-109 | the copy and deallocate's link store keep both invariants and the new block's header |
| WallE.Allocator.MovedKeepsLive | assembly/wall-e.ts:107-110 | every block allocated before allocate, except p, is kept by the move |
| WallE.Allocator.HeapUnused | assembly/wall-e.ts:35 | no block starts at the high-water mark |

## Left out

- Host primitives: `memory.size()` is the field `pages` and `memory.grow()` is `WallE.Allocator.Grow`. The host's limit is a constant `maxPages` below 65536, so `memory.grow` is deterministic here; an arbitrary refusal policy is not modelled.
- Traps: out-of-bounds `load`/`store`, and calls with a pointer that is not live (double free, a foreign or nil pointer to `deallocate`, `size` or `reallocate`), trap or corrupt memory in the source. Here they are preconditions (`IsLive(p)`), so their effects are not modelled.
- WallE.Allocator.Deallocate: requires a live pointer, while the source pushes whatever it is given.
- WallE.Allocator.HeadReusedFirst: states LIFO reuse only for a request of exactly the freed block's effective size. For other sizes, best_fit's exact-fit and least-fit rules may pick another block, which `ChooseIsChoice` states in general.
- Contents of client payloads: the model tracks them only as the bytes relocation copies, via `Contents` and `LiveKept`.
- Module export mechanics and the build comment at line 2 are not modelled.
- Concurrency: none is modelled, because the source is single-threaded by construction.

## Findings

| source | as written | input that shows it | evidently intended | confidence | as-written member | corrected member |
|---|---|---|---|---|---|---|
| assembly/wall-e.ts:60-72 | repurpose only rewrites a predecessor's link, so when ep is the list head `list` keeps naming ep, and line 70 overwrites ep's link with ls | any state whose free-list head is the block best_fit picks, e.g. free a block and then allocate its exact size | `list` moves to the head's old link. As written, the block just handed out stays at the head with its effective size in word [ep+4], so the next best_fit of that size returns it again at lines 46-47; any other request follows ls at line 52 as if it were a link. Line 62's loop assumes every ep has a parent, which the head does not | not executed | WallE.HeadRepurposeAsWritten | WallE.Allocator.Repurpose |
| assembly/wall-e.ts:28-35 | `heap + ls + 8` is computed in u32 and wraps whenever the true sum exceeds 0xFFFF_FFFF, so `space` lands below `heap + 8`: line 35 moves `heap` back, or forward by less than the header lines 32-33 just wrote; with the input shown, line 29's test passes without growing and `heap` becomes 0 | heap = 8, ls = 0xFFFF_FFF0: space wraps to 0 and `heap` becomes nil | a request that does not fit in the address space fails with nil | not executed | WallE.SpaceAsWrittenLowersHeap | WallE.Allocator.Bump |
| assembly/wall-e.ts:106-110 | when allocate(s) returns nil, reallocate still copies ls bytes to address 0, frees p, and returns nil | a live block p of logical size 16 or more and a block at 8; a request s larger than p's effective size, with no free block of size s or of a least larger size within s + s/4, and with `heap + s + 8` beyond what the host's page limit can hold, so line 107's allocate(s) returns nil; payload bytes 12..16 of p differ from block 8's effective size | return nil and leave p and memory untouched, the usual reallocation-failure contract | not executed | WallE.RelocateNilAsWritten | WallE.Allocator.Relocate |
