# A verified model of a five-level page table

This project models `pt.c`, the simulated operating-system code for a
multi-level page table. The page table is a radix trie of five levels. Each
node occupies one 4 KB physical frame and holds 512 entries of 64 bits. A
virtual page number (VPN) has 45 significant bits. Its five 9-bit slices,
most significant first, pick the slot at each level.

An entry is valid when bit 0 is set. Bits 1-11 are zero, and bits 12-63 hold
a 52-bit frame number. At levels 1-4 the frame number names the next node;
at level 5 it is the physical page number (PPN).

- `page_table_update(pt, vpn, ppn)` walks levels 1-4.
  - It allocates a zero-filled frame for each invalid slot and links it as
    `(frame << 12) + 1`.
  - A destroy (`ppn == NO_MAPPING`) that meets an invalid slot returns
    without changing anything.
  - At the leaf it writes `0` (destroy) or `(ppn << 12) + 1`.
- `page_table_query(pt, vpn)` walks all five levels.
  - It returns `NO_MAPPING` at the first invalid slot.
  - Otherwise it returns the leaf entry shifted right by 12.

The model has three layers.

- **Words and entries** (`pte.dfy`, module `Pte`).
  - `Word` is an unsigned 64-bit integer.
  - Shifts and masks by constants are written as what they are on unsigned
    words. `x >> n` is `x / 2^n`, `x & (2^n - 1)` is `x % 2^n`, and `x << n`
    is `x * 2^n` reduced modulo 2^64.
  - `Slice` is the per-level index, `LeafIndex` the bare mask of line 69,
    `MakePte` the entry `(f << 12) + 1` and `FrameNumber` the shift `e >> 12`.
- **The trie on values** (`trie.dfy`, `pathupdate.dfy`, `walk.dfy`,
  `updatespec.dfy`, `update.dfy`).
  - Memory is a map from frames to 512-word nodes.
  - `Query` is the query's walk as a recursive function.
  - `UpdateFrom` is the update's walk as a recursive function. It takes the
    allocator's list of frames still to hand out, and returns the new
    memory and free list, or `Fault`.
  - A ghost `Shape` maps each node's path (its sequence of indices) to its
    frame. `IsTrie` says the frames reachable from the root form a tree
    described by the shape:
    - every node is an allocated frame;
    - a slot at levels 1-4 is valid exactly when the extended path is a node,
      and then it names that node's frame;
    - paths are prefix-closed;
    - no frame sits at two paths.
  - `Lookup` reads a VPN's leaf through the shape. It is the reference that
    both walks are proved against.
- **The imperative code** (`physmem.dfy`, `pt.dfy`).
  - Class `PhysicalMemory` holds one `array<Word>` of length 512 per
    allocated frame, and the allocator's free list.
  - `PageTableUpdate` and `PageTableQuery` follow the source's loops. They
    write into the arrays in place, and are proved to compute `UpdateFrom`
    and `Lookup`/`Query`.

## Model

| member | source | states |
|---|---|---|
| PageTable.PageTableUpdate | pt.c:31-85 | After the call, the frames' contents and the allocator's free list are exactly what `UpdateFrom` computes from the state before. Memory stays well formed: one 512-word array per frame, and the free frames are unused. Frames are only added: every frame that existed keeps its array, and each new frame has a fresh one, so the same memory can be updated again. |
| PageTable.UpdateLevel | pt.c:42-66 | One pass of the loop at level `i` leaves the outcome of the rest of the update unchanged. A destroy that meets an invalid slot stops with the update complete. Otherwise an invalid slot receives a freshly allocated frame, and the walk moves to the frame the slot names. Frames that existed keep their arrays. |
| PageTable.UpdateLeaf | pt.c:68-84 | Clearing the leaf slot (destroy) or writing `(ppn << 12) + 1` into it completes the update: memory and free list are then `UpdateFrom`'s result. |
| PageTable.SetEntry | pt.c:82 | The in-place write `ptPointer[ptIndex] = w` (also used for lines 60 and 75) changes exactly slot `ptIndex` of that frame (`Store`). Every other word of every frame is kept. |
| PageTable.LinkNewTable | pt.c:60 | The allocated frame was not in memory before and is below 2^52. It becomes a zero-filled node, and the slot now holds `MakePte(f)`. Memory becomes `Store(m[f := zeros], node, idx, MakePte(f))`, and the free list loses its head. |
| PageTable.PageTableQuery | pt.c:88-120 | Whenever vpn's own walk stays in allocated frames, the result is `Query` of the frames. On a memory holding a trie, it is also `Lookup` of that trie, for every trie shape the frames hold. The method modifies nothing. |
| PageTable.QueryOnTries | pt.c:98-120 | The query walk's result is the mapping of every trie the frames hold. |
| PhysMem.PhysicalMemory.AllocPageFrame | pt.c:60 | `alloc_page_frame()` returns the next free frame number. That frame was not allocated before, fits 52 bits and gets a fresh zero-filled array. Every other frame keeps its contents. |
| PhysMem.PhysicalMemory.PhysToVirt | pt.c:37 | `phys_to_virt(addr)` is the array of the frame that the address lies in. |
| PhysMem.PhysicalMemory.NextTable | pt.c:65 | `phys_to_virt(e - 1)` for a valid entry `e` is the array of frame `e >> 12`. Memory is unchanged. |
| UpdateSpec.UpdateFrom | pt.c:42-82 | The update walk on values. A `Done` outcome always stands on an allocated frame. What it computes is stated by `Update.UpdateCorrect`. |
| UpdateSpec.UpdateKeepsFreeList | pt.c:57-65 | The update never takes a frame twice. What it leaves of the free list is still a list of distinct frames below 2^52 that the new memory does not use, so a second update can start from the first one's result. |
| UpdateSpec.UpdateWritesPtes | pt.c:60-82 | Frames are only added. Every word the update changes, and every word of an added frame, is `0` or has `1` as its low twelve bits, i.e. is `(f << 12) + 1`. |
| Update.UpdateCorrect | pt.c:31-85 | On a trie with enough free frames for the missing nodes of vpn's path, the update does not fault and leaves a trie. `vpn` now maps to `ppn`, or to `NO_MAPPING` for a destroy, and every other VPN below 2^45 keeps its mapping. A destroy keeps the shape and the free list and clears only vpn's leaf entry, when present. A mapping adds nodes only on vpn's path, in frames that were free, and consumes one free frame per missing node. |
| Update.QueryAfterUpdate | pt.c:42-120 | Round trip, as seen by the query's walk. After the update, querying `vpn` returns `ppn`, or `NO_MAPPING` after a destroy, whatever was mapped before (latest write wins). Querying any other VPN below 2^45 returns what it returned before, including VPNs that share upper slices with `vpn`. |
| Update.UpdateAllocations | pt.c:42-60 | A destroy allocates nothing. A mapping allocates exactly the missing nodes of vpn's path, taken in order from the free list. That is at most 4 frames, and none exactly when vpn's path already exists. |
| Update.DestroyCutOff | pt.c:49-55 | A destroy whose path hits an invalid slot at levels 1-4 returns memory and free list unchanged. |
| Update.DestroyTwice | pt.c:49-76 | Destroy is idempotent: destroying again after a destroy changes nothing. |
| Update.UpdateFromWalk | pt.c:42-84 | Induction over the levels: from a walk that is ready at level `i`, the rest of the update finishes with the trie, mappings and free list that `UpdateCorrect` promises. |
| Update.UpdateDescend | pt.c:63-65 | A valid slot at levels 1-4: the rest of the update from the linked node finishes as promised. |
| Update.DescendStep | pt.c:65 | From a valid slot the walk is ready at the next level, at the node the slot links. Memory, trie, free list and the count of missing nodes are unchanged. |
| Update.DescendNext | pt.c:65 | Following a valid slot leaves `UpdateFrom`, `ShapeFrom` and the count of nodes still to allocate unchanged. |
| Update.UpdateLink | pt.c:57-65 | An invalid slot while mapping: after linking the next free frame, the rest of the update finishes as promised. |
| Update.LinkStep | pt.c:60 | From an invalid slot while mapping, the walk is ready at the next level, at the newly linked frame. The free list has lost its head, and one node fewer is missing. |
| Update.LinkNext | pt.c:60 | The linked frame is the free list's head: not in memory and below 2^52. Memory becomes the store of `MakePte(f)` over the zero-filled frame, and the free list stays unused. |
| Update.UpdateStop | pt.c:49-55 | An invalid slot at levels 1-4 while destroying: the update is complete, with nothing written and vpn unmapped. |
| Update.UpdateLeaf | pt.c:68-82 | The leaf write completes the update: vpn reads `ppn` (or `NO_MAPPING`), and every other VPN reads what it read before. |
| UpdateWalk.WalkStart | pt.c:37 | The walk starts at the root with nothing changed. |
| UpdateWalk.WalkDescend | pt.c:63-65 | A valid slot at levels 1-4 leads to the existing node at the extended path, with nothing written or allocated. |
| UpdateWalk.WalkStop | pt.c:49-55 | An invalid slot at levels 1-4 means vpn has no mapping, so destroying it changes nothing. |
| UpdateWalk.WalkMissing | pt.c:49 | An invalid slot at levels 1-4 means the node at the extended path is missing, one more the update has to allocate. |
| UpdateWalk.WalkLink | pt.c:60 | Linking a fresh zero-filled frame from an invalid slot keeps the trie (with one node added) and changes no lookup. |
| UpdateWalk.WalkLeaf | pt.c:68-82 | Writing `w` into vpn's leaf slot keeps the trie. Vpn then reads `LeafValue(w)`, and every other VPN below 2^45 reads what it read before the update. |
| PathUpdates.PathUpdateNone | pt.c:37 | An update that has changed nothing so far changed only vpn's path. |
| PathUpdates.PathUpdateLink | pt.c:60 | Linking a fresh frame as vpn's next node keeps the change confined to vpn's path. |
| PathUpdates.PathUpdateLeaf | pt.c:82 | Writing vpn's leaf slot keeps the change confined to vpn's path. |
| Trie.Query | pt.c:88-120 | The query's walk on values returns `NO_MAPPING` or a page number below 2^52. |
| Trie.QueryFrom | pt.c:98-116 | The query's walk from level `level` returns `NO_MAPPING` or a page number below 2^52. |
| Trie.TrieWalkInMemory | pt.c:98-116 | On a trie, the query walk of any VPN visits only allocated frames, so the query's precondition holds on every page table. |
| Trie.QueryIsLookup | pt.c:98-120 | On a trie, the query's walk returns exactly the leaf that the trie's shape assigns to the VPN. |
| Trie.QueryStops | pt.c:105-107 | An invalid slot at any level on vpn's path means vpn has no mapping. |
| Trie.WalkDown | pt.c:112-115 | A valid slot at levels 1-4 names the frame of the node at the extended path, and that frame is allocated. |
| Trie.WalkStops | pt.c:49 | An invalid slot at levels 1-4 means no node exists at the extended path. |
| Trie.LeafWriteQuery | pt.c:82 | Writing `w` into vpn's leaf slot keeps the trie. The query then returns `LeafValue(w)` for vpn and what it returned before for every other VPN below 2^45. |
| Trie.DestroyQuery | pt.c:73-76 | Clearing vpn's leaf slot keeps the trie. The query then returns `NO_MAPPING` for vpn and what it returned before for every other VPN below 2^45. |
| Trie.DestroyPresent | pt.c:75 | When vpn's leaf node exists, destroying clears exactly its slot. |
| Trie.DestroyAbsent | pt.c:49-55 | When vpn's path is cut off at some level, destroying changes nothing. |
| Trie.DestroyIdempotent | pt.c:75 | Clearing vpn's leaf slot twice is clearing it once. |
| Trie.EmptyTrie | pt.c:105-107 | A zero-filled root is a trie with one node, and the query maps every VPN to `NO_MAPPING`. |
| Trie.NothingMissing | pt.c:49 | No node of vpn's path is missing exactly when the path's node at depth `k` exists. |
| Trie.SameLeafSlotSameVpn | pt.c:46-69 | Two VPNs below 2^45 with the same leaf node path and the same leaf slot are the same VPN. |
| Trie.AllocKeepsTrie | pt.c:60 | Adding a zero-filled frame keeps the trie and every lookup. |
| Trie.LinkKeepsTrie | pt.c:60 | Linking an unused zero-filled frame from an invalid slot at levels 1-4 keeps a trie (with the new node) and every lookup. |
| Trie.StoreLeafKeepsTrie | pt.c:75-82 | Writing a leaf slot keeps the trie. Only the VPN of that slot reads differently, and it reads `LeafValue` of the new word. |
| Trie.FreeListGrow | pt.c:60 | A frame not in the free list can be taken into use without making the free list's frames used. |
| Pte.Slice | pt.c:46 | The 9-bit index of level `i`: `(vpn >> (45 - i * 9)) & 0x1ff`, with each level's shift written out as a constant divisor. `Pte.SliceIsShiftAndMask` proves that the constants are the source's shifts. The query uses the same expression at pt.c:102. |
| Pte.IsValid | pt.c:49 | The valid-bit test `(e & 1)`, read as `e % 2 == 1`. The query uses the same test at pt.c:105. |
| Pte.SliceIsShiftAndMask | pt.c:46 | For each level 1-5, the level's index is `(vpn >> (45 - 9 * level)) & 0x1ff`, a value in 0..511. |
| Pte.LeafIndex | pt.c:69 | The bare mask `vpn & 0x1ff` is the same index as the fifth-level slice used by the query. |
| Pte.SlicesCompose | pt.c:102 | The five slices of a VPN below 2^45, shifted back into place, give the VPN back. |
| Pte.ComposeSlices | pt.c:102 | Slicing a VPN composed of five indices gives back those indices. |
| Pte.IndicesDetermineVpn | pt.c:102 | Two VPNs below 2^45 with the same five indices are equal. |
| Pte.Compose | pt.c:102 | Five 9-bit indices composed into a VPN give a value below 2^45. |
| Pte.FrameNumberOfValid | pt.c:65 | Taking the valid bit off an entry (`e - 1`) does not change its frame number `e >> 12`. This is why `phys_to_virt(e - 1)` lands in frame `e >> 12`. |
| Pte.FrameAddressRoundTrip | pt.c:37 | `(pt << 12) >> 12 == pt` for a frame number below 2^52. |
| Pte.FrameAddress | pt.c:37 | `f << 12` is a frame-aligned address. |
| Pte.MakePte | pt.c:60 | `(f << 12) + 1` has the valid bit set and bits 1-11 zero. |
| Pte.MakePteIsValid | pt.c:60 | The entry made for a frame number below 2^52 is valid and names that frame. |
| Pte.FrameNumber | pt.c:120 | `e >> 12` is below 2^52. |
| Pte.LeafValue | pt.c:105-120 | A leaf entry reads as `NO_MAPPING` exactly when its valid bit is clear; otherwise it reads as a page number below 2^52. |
| Pte.LeafRoundTrip | pt.c:82 | A leaf entry written for a PPN below 2^52 reads back as that PPN, and a cleared entry reads back as `NO_MAPPING`. |
| Pte.NoMappingIsNotAPpn | pt.c:52 | `NO_MAPPING` is not a legal page number (it is at least 2^52). |

## Left out

- The definition of `NO_MAPPING` is in `os.h`, which is not part of this
  model. It is fixed as `0xFFFF_FFFF_FFFF_FFFF`, and the proofs use only
  that it is at least 2^52 (`Pte.NoMappingIsNotAPpn`).
- `alloc_page_frame` and `phys_to_virt` are defined outside `pt.c` (an
  mmap-based simulation) and are modelled by contract only.
  - The allocator hands out frames from a list fixed in advance: distinct
    frame numbers below 2^52 that are not in use.
  - `phys_to_virt` is a lookup of the frame's array.
  - The allocator running out of frames is the allocator's own fatal error.
    The model shows it as the `Fault` outcome of `UpdateFrom`.
- PageTable.PageTableUpdate: requires that `UpdateFrom` does not fault.
  That means the root frame `pt` is allocated, enough free frames remain, and
  every valid entry on the path names an allocated frame. The source checks
  none of these. `Update.UpdateCorrect` shows that a trie with enough free
  frames meets this.
- PageTable.PageTableUpdate: requires `pt < 2^52`, so that `pt << 12` does
  not drop bits.
- Update.UpdateCorrect: the round-trip and independence properties are
  stated for `vpn < 2^45` and for `ppn < 2^52` or `NO_MAPPING`. Out-of-range
  inputs, where the source's shifts silently truncate, are excluded by
  these requires. `UpdateFrom` itself computes the truncated writes for any
  word.
- PageTable.PageTableQuery: requires that vpn's own walk visits only
  allocated frames (`Trie.WalkInMemory`). Otherwise the source would read
  through an address it computed from an entry, into memory that was never
  allocated. The query is specified on any such memory, not only on page
  tables. It also requires `pt < 2^52`, so that `pt << 12` does not drop
  bits.
- Trie.QueryFrom: returns `NO_MAPPING` when the walk reaches a frame that is
  not allocated, where the source would read through whatever address it
  computed. This cannot happen on a trie (`Trie.TrieWalkInMemory`).
- The ghost `Shape` is an abstraction added for the proofs. The source has
  no such structure.
- Nothing is ever freed, in the source or in the model, so emptied
  intermediate nodes stay allocated and valid.
- Concurrency and the header includes and error plumbing (`pt.c:1-7`) are
  not modelled.
- The comments at `pt.c:68` and `pt.c:72` call the leaf "level 4". The code
  indexes the fifth, leaf level there, and the model follows the code.
