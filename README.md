# Sv39 page tables of a small RISC-V kernel, in Dafny

This project models the Sv39 memory-management core of a Rust kernel for
64-bit RISC-V and proves properties of it. Sv39 is the three-level,
39-bit virtual-memory scheme of section 4.4 of the RISC-V Privileged
Architecture. The kernel has two snapshots of this code. The model covers
both, plus the driver that identity-maps a region:

- `src/mmu/sv39.rs` (module `Sv39`, file `sv39.dfy`):
  - splitting a virtual address into VPN slices and a page offset;
  - the bit layout of a page-table entry (PTE) and its predicates;
  - the recursive translation walk `virt_to_phys_rec` / `virt_to_phys`;
  - the mapping routine `map_rec` / `map`.
- `src/mmu/sv39_page_table.rs` (module `Sv39PageTable`, file `sv39_page_table.dfy`):
  - the second snapshot's address and entry types;
  - its page-table object;
  - `create_virtual_to_physical_mapping`;
  - the assertion that a table fills exactly one page.
- `src/mmu.rs` (module `Mmu`, file `mmu.dfy`): `memory_map_region`.

`outcomes.dfy` holds `Option` and `Outcome`. `pte_encoding.dfy` holds the
R/W/X encoding table of section 4.3.1 of the standard: next-level pointer,
read-only, reserved, read-write, execute-only, read-execute,
read-write-execute.

## How the code is represented

- **Machine words.** `usize` is `bv64`. Every shift, mask and `|` is the
  64-bit operation the Rust code performs.
- **Outcomes.** A function returning `Result<_, &str>` returns an
  `Outcome`. `Ok` and `Err` carry the source's own messages. A failed
  `assert!` or a failed `unwrap` is `Panic(reason)`.
- **Assertions that cannot fail** are not outcomes. They are Dafny
  `assert`s in the method bodies, so it is proved that they hold:
  - the `assert_not_reserved` in `Pte::new`;
  - the two bit-disjointness `assert!`s of `virt_to_phys_rec`;
  - the `assert!(curr_pte.is_leaf())`.
- **Assertions and indexing that callers guarantee** are preconditions
  (`requires`), not outcomes. Every call site in the code meets them:
  - `assert!(protection_bits < (1 << 8))` in `Pte::new` is the `requires`
    of `Sv39.Pte.New`; every caller passes `PteBits::Valid.val() = 1`;
  - `assert!(curr_depth >= 0)` and `assert!((curr_depth as usize) >=
    target_depth)` in `map_rec` are the `requires` of `MapRec` and
    `MapStep`, together with `curr_depth < 3`, which keeps the
    `vpn[curr_depth]` index in bounds; `map` passes 2, 2 and each
    recursive call lowers `curr_depth` by one only while it is above the
    target;
  - the index `vpn[depth as usize]` of `virt_to_phys_rec` is in bounds only
    for `depth < 3`, the `requires` of `VirtToPhysRec` and `Walk`;
    `virt_to_phys` passes `NUM_LEVELS - 1 = 2` and each recursive call
    lowers it (a negative depth is handled, as the source does, by the
    "depth reached negative" error).
- **Physical memory**, as the page-table code sees it, is
  `Memory(tables, free)`:
  - `tables` maps the physical address of each page-table page to its
    512 entries;
  - `free` is the sequence of fresh, zeroed, page-aligned pages that
    `zero_allocate_pages(1)` hands out.

  A branch entry is followed by looking its target address up in
  `tables`, never by casting a pointer. `PhysicalMemory` is the same as a
  mutable object: `map_rec` writes an entry in place through
  `MapRec`/`Map`, which are proved equal to the functional `MapStep`.
- **The translation walk** is the function `Walk`, and the method
  `VirtToPhysRec` is proved equal to it.
  - `Walk` takes the three slot indices as a separate argument. This lets
    a lemma vary the address's other bits while the indices stay fixed.
  - The bounded alignment loop of the source is the method
    `SuperpageAligned`.
- **The second snapshot's page table** is a class with a 512-entry
  `array`. `create_virtual_to_physical_mapping` writes into that array in
  place.

## Where the code departs from the standard (modelled as written)

- **`Pte::new` combines by `&`** (`(ppn << 10) & protection_bits`). The
  shifted value has ten clear low bits and the flags fit in eight, so every
  entry it builds is zero. `Sv39.Pte.New` proves this. Such an entry is
  invalid and never reserved.
- **`get_whole_vpn` uses `|`** with 27 ones. Its low 27 bits are therefore
  always set. At a superpage leaf the page number gets the all-ones mask
  `(1 << 9*depth) - 1` instead of the address's own VPN bits. Every base
  page of a superpage therefore translates to the last page of that
  superpage. `Sv39.WalkIgnoresVpnBits` proves that a walk depends on the
  address only through its slot indices and its page offset, and
  `Sv39.SuperpageBasePagesAgree` that at a leaf the lower slots do not
  matter either.
- **`map` calls `map_rec(va, pa, root, 2, 2)`**, so it never descends.
  `Map` performs no allocation, returns `Ok`, and writes `Pte::new(..)`
  (that is, zero) into root slot VPN[2] only. Translating that address
  afterwards therefore fails with "hit invalid page" (`Sv39.MapThenTranslateFails`).
  For targets below the current level, `MapStepFollowsDescent` shows what
  `map_rec` would do:
  - at an invalid entry it allocates, writes a zero entry, and then panics
    on its own pointer assertion;
  - when no page is left it panics at once.
- **`memory_map_region` steps one byte at a time.** It therefore clears the
  root slots of its range and nothing else. No address of the range
  translates afterwards (`Mmu.RegionTranslationsFail`).
- **`create_virtual_to_physical_mapping`** ignores two of its inputs:
  - it computes, but never uses, a `ppn` array from `paddr`;
  - its loop variable `i` is unused, and its `protection_bits` parameter
    is shadowed by a local of the same name inside the loop.

  What it does:
  - it rewrites the single root slot VPN[2], once per loop iteration, with
    a valid pointer entry for the new page;
  - when `level >= 2` the loop does not run and the table is unchanged
    (the allocation before the loop still happens, and still panics when
    it fails);
  - it builds entries by `|`, so unlike `Pte::new` they do point at the
    page, when that page is page-aligned and below 2^56
    (`Sv39PageTable.MappingLinksNewTable`).

## Model

| member | source | states |
|---|---|---|
| Sv39.VirtAddr.GetVpn | src/mmu/sv39.rs:43-50 | three VPN slices, each below 512 |
| Sv39.VirtAddr.Slots | src/mmu/sv39.rs:43-50 | the slices as table indices: three, each below 512, equal to the slices |
| Sv39.VirtAddrRecomposes | src/mmu/sv39.rs:43-61 | VPN[2..0] shifted back into place, together with the offset, rebuild the low 39 bits of the address |
| Sv39.VirtAddr.GetWholeVpn | src/mmu/sv39.rs:52-55 | the low 27 bits are always ones, whatever the address; above them are the address bits from 39 up |
| Sv39.VirtAddr.GetOffset | src/mmu/sv39.rs:57-61 | the offset is below 4096 |
| Sv39.Pte.New | src/mmu/sv39.rs:65-73 | demands flags below 256, as the `assert!` does; the entry built is zero, so it is invalid and not reserved, and `assert_not_reserved` cannot fire |
| Sv39.Pte.GetPpn | src/mmu/sv39.rs:75-83 | PPN[0], PPN[1] below 512 and PPN[2] below 2^26; `ppn[0] \| ppn[1] << 9 \| ppn[2] << 18` is the whole PPN |
| Sv39.Pte.GetWholePpn | src/mmu/sv39.rs:85-88 | the whole PPN is below 2^44 |
| Sv39.Pte.GetPhysicalAddr | src/mmu/sv39.rs:90-93 | the address is page-aligned and its page number is the whole PPN |
| Sv39.PteBits.Val | src/mmu/sv39.rs:11-28 | the value of each of the eight flags; every flag fits in the low byte, so it passes the `protection_bits < (1 << 8)` check of `Pte::new` |
| Sv39.ClassificationMatchesEncodingTable | src/mmu/sv39.rs:95-119 | is_branch holds exactly for the "pointer to next level" row (R, W, X clear); is_reserved exactly for the two reserved rows (W without R); is_leaf is not is_branch; a non-reserved leaf is exactly one of the five page rows |
| Sv39.Pte.IsValid | src/mmu/sv39.rs:95-97 | the V bit; read back from the flags by `NewEntryFlags` (second snapshot) and classified by `ClassificationMatchesEncodingTable` |
| Sv39.Pte.IsRead | src/mmu/sv39.rs:99-101 | the R bit; its role in the R/W/X table is stated by `ClassificationMatchesEncodingTable` |
| Sv39.Pte.IsWrite | src/mmu/sv39.rs:102-104 | the W bit; its role in the R/W/X table is stated by `ClassificationMatchesEncodingTable` |
| Sv39.Pte.IsExecute | src/mmu/sv39.rs:105-107 | the X bit; its role in the R/W/X table is stated by `ClassificationMatchesEncodingTable` |
| Sv39.Pte.IsBranch | src/mmu/sv39.rs:109-111 | R, W and X all clear; `ClassificationMatchesEncodingTable` shows this is exactly the "pointer to next level" row |
| Sv39.Pte.IsLeaf | src/mmu/sv39.rs:113-115 | not a branch; `ClassificationMatchesEncodingTable` shows a non-reserved leaf is exactly one of the five page rows |
| Sv39.Pte.IsReserved | src/mmu/sv39.rs:117-119 | W without R; `ClassificationMatchesEncodingTable` shows this is exactly the two reserved rows |
| Sv39.VpnMaskIsLowOnes | src/mmu/sv39.rs:159 | the leaf masks are `(1 << 9*depth) - 1` for depths 0, 1, 2 |
| Sv39.WholeVpnCoversMask | src/mmu/sv39.rs:159-162 | masking `get_whole_vpn` with a level's mask yields the mask itself |
| Sv39.LeafAddress | src/mmu/sv39.rs:159-168 | the leaf address is `((ppn \| mask) << 12) \| offset`: the address contributes only its offset, never its VPN bits |
| Sv39.AlignedPpnClearsMask | src/mmu/sv39.rs:149-163 | for an aligned leaf the whole PPN has no bit inside the mask, so the source's first `assert!` holds |
| Sv39.PageNumberClearOfOffset | src/mmu/sv39.rs:164-167 | a page number shifted by 12 shares no bit with an offset below 4096, so the second `assert!` holds, and the offset is recovered from the result |
| Sv39.SuperpageAligned | src/mmu/sv39.rs:149-156 | the loop reports aligned exactly when `ppn[0] .. ppn[depth-1]` are all zero |
| Sv39.LeafPageAddress | src/mmu/sv39.rs:159-168 | the computed `page_addr \| page_offset` is the leaf address, and both `assert!`s hold on the way |
| Sv39.VirtToPhysRec | src/mmu/sv39.rs:126-169 | the recursive method returns exactly what the walk specification gives, for every depth, table and address |
| Sv39.VirtToPhys | src/mmu/sv39.rs:171-177 | translation is the walk started at level `NUM_LEVELS - 1 = 2` |
| Sv39.Translate | src/mmu/sv39.rs:171-177 | the walk from level `NUM_LEVELS - 1` over the address's own slots; `VirtToPhys` is proved equal to it, and `MapThenTranslateFails` and `Mmu.RegionTranslationsFail` are stated through it |
| Sv39.Walk | src/mmu/sv39.rs:126-169 | the specification of the walk; its cases are stated by `InvalidEntryFails`, `ReservedEntryPanics`, `BranchAtLevelZeroUnderflows`, `MisalignedSuperpageFails`, `WalkAtLeaf`, `AlignedSuperpageAddress`, `LeafAtLevelZero`, and its general properties by `WalkErrors`, `WalkKeepsOffset`, `WalkIgnoresVpnBits` |
| Sv39.WalkAtLeaf | src/mmu/sv39.rs:130-168 | a valid, non-reserved, aligned leaf at the indexed slot yields the leaf address |
| Sv39.InvalidEntryFails | src/mmu/sv39.rs:130-134 | an invalid entry at the indexed slot, at any level, gives "hit invalid page" |
| Sv39.ReservedEntryPanics | src/mmu/sv39.rs:136 | a valid entry with a reserved encoding aborts in `assert_not_reserved` |
| Sv39.BranchAtLevelZeroUnderflows | src/mmu/sv39.rs:126-144 | a followable branch at level 0 gives "depth reached negative before leaf found" |
| Sv39.MisalignedSuperpageFails | src/mmu/sv39.rs:149-156 | a leaf above level 0 with any nonzero PPN slice below its level gives "misaligned superpage" |
| Sv39.AlignedSuperpageAddress | src/mmu/sv39.rs:149-168 | an aligned leaf above level 0 yields `((ppn \| mask) << 12) \| offset`, with the level's mask `(1 << 9*depth) - 1` |
| Sv39.LeafAtLevelZero | src/mmu/sv39.rs:159-168 | a leaf at level 0 yields `(whole_ppn << 12) \| offset` |
| Sv39.LeafAddressAtLevelZero | src/mmu/sv39.rs:159-168 | at level 0 the leaf address is the entry's physical address with the offset |
| Sv39.WalkErrors | src/mmu/sv39.rs:126-168 | every error the walk returns is one of its three messages |
| Sv39.WalkKeepsOffset | src/mmu/sv39.rs:164-168 | a successful walk keeps the low 12 bits of the address |
| Sv39.WalkIgnoresVpnBits | src/mmu/sv39.rs:126-168 | with the slot indices fixed, two addresses with the same offset translate identically |
| Sv39.SuperpageBasePagesAgree | src/mmu/sv39.rs:149-168 | two addresses that share the slot of a leaf's level and their offset, but may differ in every lower slot, walk to the same result: all base pages of a superpage land on the same page |
| Sv39.SameLeafAddress | src/mmu/sv39.rs:159-168 | leaf addresses for two addresses with the same offset coincide |
| Sv39.Descend | src/mmu/sv39.rs:188-210 | the read-only descent of `map_rec` stops at a table present in memory, at an invalid entry strictly above the target level, or at an unusable pointer (null or unknown) |
| Sv39.Store | src/mmu/sv39.rs:190-200 | writing one entry changes that slot of that table and nothing else: the other 511 slots and all other tables are unchanged |
| Sv39.MapStep | src/mmu/sv39.rs:179-211 | `map_rec` as a function of memory, outcome and memory afterwards; characterised independently through `Descend` by `MapStepFollowsDescent`, and at `map`'s arguments by `MapClearsRootSlot` |
| Sv39.MapFollow | src/mmu/sv39.rs:204-210 | the tail of `map_rec`: the unwrap of the next-table pointer and the recursive call one level down; covered by `MapStepFollowsDescent` |
| Sv39.MapStepFollowsDescent | src/mmu/sv39.rs:179-211 | `map_rec`'s outcome and memory, by where the descent stops: reaching the target clears the slot; an invalid entry allocates, writes zero and panics on the pointer assertion, or panics if no page is left; an unusable pointer panics with memory untouched |
| Sv39.MapClearsRootSlot | src/mmu/sv39.rs:213-215 | `map_rec(.., 2, 2)` returns `Ok`, zeroes root slot VPN[2] and keeps the allocator supply |
| Sv39.PhysicalMemory.ZeroAllocatePage | src/mmu/sv39.rs:198 | the allocation step: the next fresh page as a zero table, or `None` when the supply is empty; the supply stays fresh |
| Sv39.PhysicalMemory.MapRec | src/mmu/sv39.rs:179-211 | the in-place routine's result and new memory are exactly the functional `MapStep`, and the allocator invariant is kept |
| Sv39.PhysicalMemory.Map | src/mmu/sv39.rs:213-215 | `map` returns `Ok`, allocates nothing, and only root slot VPN[2] becomes zero |
| Sv39.MapThenTranslateFails | src/mmu/sv39.rs:213-215 | right after `map`, translating the same address fails with "hit invalid page" |
| Sv39PageTable.SizeOfPageTable | src/mmu/sv39_page_table.rs:41-42 | 512 eight-byte entries fill exactly one 4096-byte page |
| Sv39PageTable.EntryBits.Bits | src/mmu/sv39_page_table.rs:10-27 | every flag fits in the low byte |
| Sv39PageTable.Sv39VirtualAddress.GetVpns | src/mmu/sv39_page_table.rs:80-88 | three indices, each below 512 |
| Sv39PageTable.Sv39VirtualAddress.Indices | src/mmu/sv39_page_table.rs:80-88 | the indices as array positions, each below 512 and equal to the slices |
| Sv39PageTable.Sv39PageTableEntry.New | src/mmu/sv39_page_table.rs:93-98 | the entry built from flags and an address; its layout is stated by `NewEntryFields`, its flags by `NewEntryKeepsFlag`/`NewEntryFlags` and its target by `NewEntryPointsAtPage` |
| Sv39PageTable.Sv39PageTableEntry.IsValid | src/mmu/sv39_page_table.rs:100-102 | the V bit; `NewEntryFlags` shows it holds for a new entry exactly when V is in the flags |
| Sv39PageTable.Sv39PageTableEntry.CanRead | src/mmu/sv39_page_table.rs:103-105 | the R bit; `NewEntryFlags` shows it holds for a new entry exactly when R is in the flags |
| Sv39PageTable.Sv39PageTableEntry.CanWrite | src/mmu/sv39_page_table.rs:106-108 | the W bit; `NewEntryFlags` shows it holds for a new entry exactly when W is in the flags |
| Sv39PageTable.Sv39PageTableEntry.CanExecute | src/mmu/sv39_page_table.rs:109-111 | the X bit; `NewEntryFlags` shows it holds for a new entry exactly when X is in the flags |
| Sv39PageTable.VpnsAgreeWithSv39 | src/mmu/sv39_page_table.rs:80-88 | a linking lemma: the second snapshot's `get_vpns` is the same slicing as `sv39.rs`'s `get_vpn`, so the two snapshots index tables identically |
| Sv39PageTable.NewEntryFields | src/mmu/sv39_page_table.rs:93-98 | a new entry's low byte is the flags, bits 8-9 are zero, and `bits >> 10 == physical_addr >> 12` |
| Sv39PageTable.NewEntryKeepsFlag | src/mmu/sv39_page_table.rs:93-98 | each of the eight flag bits of a new entry equals that bit of the flags passed in |
| Sv39PageTable.NewEntryFlags | src/mmu/sv39_page_table.rs:100-111 | is_valid, can_read, can_write and can_execute of a new entry hold exactly when V, R, W, X are set in the flags |
| Sv39PageTable.NewValidEntryIsBranch | src/mmu/sv39_page_table.rs:136-137 | an entry built with V only is valid and, read by `sv39.rs`, a branch in the "pointer to next level" row |
| Sv39PageTable.NewEntryPointsAtPage | src/mmu/sv39_page_table.rs:93-98 | for a page-aligned address below 2^56 the entry's physical address is that address |
| Sv39PageTable.RootAfterMapping | src/mmu/sv39_page_table.rs:133-138 | the root after the mapping: at most slot VPN[2] changes; for level below 2 it holds `new(V, new_table)`, for level 2 or more the root is unchanged |
| Sv39PageTable.CreateVirtualToPhysicalMapping | src/mmu/sv39_page_table.rs:118-139 | panics before writing when the allocation fails; otherwise the root array afterwards is exactly that result, whatever `paddr` and `protection_bits` (repeated iterations write the same entry) |
| Sv39PageTable.MappingLinksNewTable | src/mmu/sv39_page_table.rs:131-138 | after a mapping below level 2, root slot VPN[2] is a valid branch pointing at the new page, when that page is aligned and below 2^56 |
| Mmu.Cleared | src/mmu.rs:5-9 | the tables after the region is mapped: the key set is the same and every table other than the root is unchanged |
| Mmu.ClearedStep | src/mmu.rs:6-7 | an unfolding helper: extending the range by its next address is one more `map` of that address, the step the loop of `MemoryMapRegion` takes |
| Mmu.RegionSlotsZeroed | src/mmu.rs:6-8 | for every address in `start..end`, root slot VPN[2] is zero afterwards |
| Mmu.OtherSlotsKept | src/mmu.rs:6-8 | a root slot selected by no address of the range keeps its entry |
| Mmu.RegionTranslationsFail | src/mmu.rs:5-9 | after the region is mapped, translating any of its addresses fails with "hit invalid page" |
| Mmu.MemoryMapRegion | src/mmu.rs:5-9 | maps each address of the range to itself, in increasing order; the `unwrap` never fires; the allocator supply is unchanged; an empty range changes nothing |

## Left out

- Sv39.VirtAddr.GetVpn: the contract gives the bounds only. The exact bit
  positions of each slice are the function body. What is proved is that
  the slices rebuild the address (`VirtAddrRecomposes`), not each slice's
  shift on its own.
- Sv39PageTable.Sv39VirtualAddress.GetVpns: the same as `GetVpn`. The
  bit positions are given through `VpnsAgreeWithSv39`.
- **The page allocator** (`src/memory_alloc.rs`) is an oracle.
  - The shown `memory_alloc.rs` has no working `zero_allocate_pages`, no
    `allocate_pages` returning a pointer, and no `PAGE_SIZE`.
  - For `map_rec`, the allocator is the `free` supply of fresh, zeroed,
    page-aligned pages.
  - For `create_virtual_to_physical_mapping`, it is an `Option` argument.
  - `PAGE_SIZE` is taken as 4096, the Sv39 base page size.
- **Raw memory.** Only page-table pages are modelled. A branch entry whose
  target is not a known page-table page gives the `Panic` "outside the
  modelled page-table pages". This is an artefact of the model: the kernel
  would read whatever memory sits at that address as a table. A null
  target is the `unwrap` panic of `as_ref()`/`as_mut()`.
- **Pointers.** The raw pointer casts are left out. A `&mut PageTable` is
  modelled as the page's physical address, so two references to the same
  table share their updates. `virt_to_phys` returns the address as a
  `bv64`, not as a `*mut u8`.
- Mmu.MemoryMapRegion: the range bounds are integers within the `usize`
  range, not `bv64` words. The loop only compares and counts them;
  `start..end` is empty exactly when `start >= end` numerically.
- Sv39PageTable.CreateVirtualToPhysicalMapping: it returns an `Outcome`
  so that the failed `allocate_pages(1).unwrap()` can be reported. The
  source returns `()`.
- **Other files**, none of which is part of this model:
  - `src/csr_helper.rs` (CSR reads through inline assembly, with
    printing);
  - `src/uart.rs` (MMIO);
  - `src/lib.rs` (panic handler, boot code).
- Enabling translation through `satp` does not appear in the code and is
  not modelled.
