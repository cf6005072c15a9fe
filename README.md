# sid_os kernel core in Dafny

This project models the core of the sid_os x86-64 hobby kernel and proves properties of that model. The kernel is written in Rust. The model covers four groups of code.

- **Memory management.**
  - The physical page-frame allocator: a bump watermark plus an intrusive stack of freed frames.
  - The kernel heap's first-fit `kmalloc`/`kfree` over a free list of blocks.
  - The four-level x86-64 page-table mapper.
  - The global descriptor table with its TSS descriptor.
- **Data structures.**
  - The intrusive doubly linked list.
  - The five-slot hash map.
  - The growable array.
- **File formats.**
  - The FAT16 boot-sector checks and the file allocation table.
  - The ELF64 loader's header validation and segment loading.
- **Small utilities and drivers.**
  - The byte bit helpers, `wrapping_sub`, and NUL-terminated strings.
  - The CMOS clock's date conversions.
  - The PS/2 keyboard and mouse interrupt handlers.
  - The VGA text screen.
  - The input event latch.

Each core file keeps the form it has in the source:

- **State the source updates in place becomes a `class` with `modifies` clauses.** Examples are the allocators, the page tables, the GDT, the list, the hash map, the growable array, the screen, the drivers' state and the clock's `DateTime`.
- **Loops become methods with invariants.** Examples are walking the free list, mapping a run of pages, clearing the screen, parsing flags and zeroing a freed frame.
- **Pure calculations become functions with lemmas.** Examples are the descriptors, the bit helpers, the BCD and hour conversions, the header parsing and the rounding.

Physical memory is a map from word address to value (`PhysicalMemory.Memory`). The page tables are a map from the address of each table frame to its 512 entries. The models of the ELF loader and the FAT table work on byte sequences.

Hardware access is turned into parameters:

- the byte read from port 0x60, and whether it came from the mouse;
- the values of the RTC registers;
- the array behind the VGA buffer at 0xB8000;
- the address of the TSS;
- the address of the disk image;
- the queue address that `kmalloc` returns to the hash map.

`Keyboard.Keyboard.HandleKeyboard` returns as a value the text its `print_serial!` calls would print. The other serial prints are left out, and "## Left out" lists them.

Integer widths follow the source. Where the model lets a `usize`, `u16`, `u8` or `i64` value reach its limit, the arithmetic wraps explicitly (modulo 2^64 and so on), as it does in a release build: the page-frame watermark, the page rounding, the FAT and ELF fields, the bit helpers and the clock. Elsewhere a `requires` keeps the values below the limit or the value is an unbounded integer, and "## Left out" names each such member. Bit fields are `bv8`, `bv16` or `bv64` where the source works on bits.

Some of the kernel's intended behaviour differs from what its code does. In each such case the model follows the code, the difference is proved as a lemma, and "## Quirks" lists it.

## Model

| member | source | states |
|---|---|---|
| Bitwise.ClearBit | kernel/src/utils/bitwise.rs:1-3 | the mask's bits are cleared and every other bit is kept |
| Bitwise.SetBit | kernel/src/utils/bitwise.rs:5-7 | the mask's bits are set and every other bit is kept |
| Bitwise.ToggleBit | kernel/src/utils/bitwise.rs:13-15 | the mask's bits are flipped and every other bit is kept |
| Bitwise.ContainsBit | kernel/src/utils/bitwise.rs:9-11 | `contains_bit` holds exactly when some bit position 0 to 7 is set in both the value and the mask |
| Bitwise.Mask | kernel/src/utils/bitwise.rs:9-11 | the mask for bit position `i` is `1 << i` |
| Bitwise.BitOfConjunction | kernel/src/utils/bitwise.rs:9-11 | bit `i` of `value & bitmask` is set exactly when it is set in both bytes |
| Bitwise.CommonBitOfConjunction | kernel/src/utils/bitwise.rs:9-11 | `value & bitmask` is non-zero exactly when some bit position is set in both bytes |
| Bitwise.SetThenContains | kernel/src/utils/bitwise.rs:5-11 | after setting a non-zero mask, `contains_bit` holds for it |
| Bitwise.ClearThenNotContains | kernel/src/utils/bitwise.rs:1-11 | after clearing a mask, `contains_bit` fails for it |
| Bitwise.ToggleTwiceIsIdentity | kernel/src/utils/bitwise.rs:13-15 | toggling twice restores the value |
| WrappingZero.Modulus | kernel/src/utils/wrapping_zero.rs:5-53 | every implemented width holds at least a byte |
| WrappingZero.WrappingSub | kernel/src/utils/wrapping_zero.rs:10 | `wrapping_sub` stays in range and is the difference, or the difference plus 2^bits |
| WrappingZero.WrappingSubZero | kernel/src/utils/wrapping_zero.rs:5-53 | 0 when the right operand is larger, the exact difference otherwise, and never more than the left operand, at every width |
| Strings.FirstNul | kernel/src/utils/string.rs:6-13 | the index of a NUL byte with no NUL before it |
| Strings.Strlen | kernel/src/utils/string.rs:4-15 | the count is the first NUL's index plus one, so at least 1, with the terminator counted and every byte before it non-zero |
| Strings.TrimStart | kernel/src/utils/string.rs:21 | a suffix of the input that starts with a non-whitespace byte, with only whitespace removed |
| Strings.TrimEnd | kernel/src/utils/string.rs:21 | a prefix of the input that ends with a non-whitespace byte, with only whitespace removed |
| Strings.Trim | kernel/src/utils/string.rs:21 | the bytes of the input left after removing whitespace from both ends; only whitespace was removed, and neither end of the result is whitespace |
| Strings.GetStringFromPtr | kernel/src/utils/string.rs:18-22 | exactly `strlen` bytes, NUL included, then trimmed |
| Strings.TrimStartKeepsLast | kernel/src/utils/string.rs:21 | trimming never removes a last byte that is not whitespace |
| Strings.TrimKeepsTerminator | kernel/src/utils/string.rs:18-22 | the string made of the `strlen` bytes and then trimmed is never empty and ends with NUL, since the NUL is not whitespace |
| Strings.TrimKeepsNulAt | kernel/src/utils/string.rs:18-22 | trimming a string whose last byte is NUL gives a non-empty string that still ends with NUL |
| PhysicalMemory.Memory.constructor | kernel/src/memory/page_frame_allocator.rs:112-116 | memory with no word written |
| PhysicalMemory.ZeroedAt | kernel/src/memory/page_frame_allocator.rs:110-116 | zeroing `n` words at `base` sets exactly those words to 0 and keeps every other word |
| PageFrames.RoundToNearestPage | kernel/src/memory/page_frame_allocator.rs:182-184 | a page multiple below 2^64: the least one at or above `size`, or 0 when `size + 4095` wraps |
| PageFrames.RoundIsWrappingMask | kernel/src/memory/page_frame_allocator.rs:182-184 | the rounding is the wrapping sum with its low twelve bits cleared |
| PageFrames.RoundIsLeastPageMultiple | kernel/src/memory/page_frame_allocator.rs:182-184 | no page multiple at or above `size` is below the rounding |
| PageFrames.RoundIsIdempotent | kernel/src/memory/page_frame_allocator.rs:182-184 | rounding twice is rounding once |
| PageFrames.RoundOfPageMultiple | kernel/src/memory/page_frame_allocator.rs:182-184 | a page multiple rounds to itself |
| PageFrames.RoundJustAbovePageMultiple | kernel/src/memory/page_frame_allocator.rs:182-184 | one to 4096 bytes past a page multiple round to the next page |
| PageFrames.GetNumberOfPages | kernel/src/memory/page_frame_allocator.rs:186-188 | the whole pages in `size`, rounding down |
| PageFrames.PagesOfRoundedSize | kernel/src/memory/page_frame_allocator.rs:182-188 | counting the pages of a rounded size covers the size exactly in whole pages |
| PageFrames.FreeStack.constructor | kernel/src/memory/page_frame_allocator.rs:145-148 | no top frame, a zero length, and an empty chain that is intact in any memory |
| PageFrames.FreeStack.IsEmpty | kernel/src/memory/page_frame_allocator.rs:150-153 | a zero counter means no frame is on the stack |
| PageFrames.FreeStack.Push | kernel/src/memory/page_frame_allocator.rs:175-179 | the node's `next` is written into memory at the node (tag word, then the old top's pointer), the node becomes the top and the counter goes up by one; an intact chain stays intact when the node's link overlaps none of it |
| PageFrames.FreeStack.Pop | kernel/src/memory/page_frame_allocator.rs:156-173 | None at length 0; at length 1 the top, which is then cleared; otherwise the top, replaced by the `next` read from the top frame's memory; the counter never changes; on an intact chain the frame returned is the one pushed last and the chain loses exactly it |
| PageFrames.PopKeepsLength | kernel/src/memory/page_frame_allocator.rs:150-179 | after one push and one pop the stack holds no frame, yet `is_empty` is false |
| PageFrames.OrderedRegionsAreDisjoint | kernel/src/memory/page_frame_allocator.rs:95-134 | runs laid out in order share no address, and their starts strictly increase |
| PageFrames.PageFrameAllocator.constructor | kernel/src/memory/page_frame_allocator.rs:38-45 | every field zero and no free stack |
| PageFrames.PageFrameAllocator.Init | kernel/src/memory/page_frame_allocator.rs:47-55 | both bounds are rounded up to a page, the free stack sits at `memory_start`, and `current_page` is `memory_start + 4096` modulo 2^64 |
| PageFrames.PageFrameAllocator.AllocPageFrame | kernel/src/memory/page_frame_allocator.rs:95-104 | None exactly when `current_page > memory_end`; otherwise the watermark moves up 4096 modulo 2^64 and its new value is returned |
| PageFrames.PageFrameAllocator.AllocPageFrames | kernel/src/memory/page_frame_allocator.rs:128-134 | returns `current_page + 4096` and advances `current_page` by `n * 4096`, both modulo 2^64 and with no bound check |
| PageFrames.PageFrameAllocator.AdvanceWatermark | kernel/src/memory/page_frame_allocator.rs:130-132 | after the loop, `current_page` has moved up `n * 4096` modulo 2^64 and is still a page-aligned usize |
| PageFrames.PageFrameAllocator.FreePageFrame | kernel/src/memory/page_frame_allocator.rs:108-125 | the frame's 512 words are zeroed, then the frame is pushed with its link stored at its start; the chain stays intact when no link of it lies in the freed page |
| PageFrames.PageFrameAllocator.ZeroFrame | kernel/src/memory/page_frame_allocator.rs:110-116 | after the loop, the 512 words from the frame address are 0 and every other word is as before |
| PageFrames.PageFrameAllocator.FreePageFrames | kernel/src/memory/page_frame_allocator.rs:137-141 | memory is that of `free_page_frame` at `base + 8 * i` for each `i < n` in turn, because the offset counts words; the top is the last address, the counter goes up by `n`, and the frames pushed are those addresses, last one on top |
| PageFrames.WriteLink | kernel/src/memory/page_frame_allocator.rs:12-15 | an `Option<*mut PageFrame>` is two words: tag 0 for None, or tag 1 followed by the pointer; a stored link reads back as stored |
| PageFrames.WriteLinkKeepsApart | kernel/src/memory/page_frame_allocator.rs:175-176 | storing one link keeps every link whose two words it does not overlap |
| PageFrames.ZeroingKeepsClearLinks | kernel/src/memory/page_frame_allocator.rs:110-116 | zeroing a page that holds no link of the stack keeps the chain intact |
| PageFrames.FreeOneKeepsBelow | kernel/src/memory/page_frame_allocator.rs:108-125 | freeing the page at `a` leaves every word below `a` unchanged |
| PageFrames.FreeingPointerWordClobbersLink | kernel/src/memory/page_frame_allocator.rs:137-141 | freeing the page that starts at the pointer word of a Some link overwrites that pointer with the new tag, 1 |
| PageFrames.FreedRunKeepsBelow | kernel/src/memory/page_frame_allocator.rs:137-141 | freeing the rest of a run changes no word below the frames still to free |
| PageFrames.FreedRunStepKeeps | kernel/src/memory/page_frame_allocator.rs:137-141 | freeing the next frame of a run keeps every word below it |
| PageFrames.FreedRunKeepsClobbered | kernel/src/memory/page_frame_allocator.rs:137-141 | a link both of whose words hold 1 keeps them while the run above it is freed |
| PageFrames.FreedPairClobbersLink | kernel/src/memory/page_frame_allocator.rs:137-141 | after frame `k` and the frame 8 bytes above it are freed, both words of frame `k`'s link hold 1 |
| PageFrames.FreedRunLinksToOne | kernel/src/memory/page_frame_allocator.rs:137-141 | in a run freed by `free_page_frames`, every frame but the top one whose link was stored as Some reads back as linking to address 1 |
| PageFrames.WordStepsAt | kernel/src/memory/page_frame_allocator.rs:137-141 | entry `k` of the pushed addresses is `base + 8 * (n - 1 - k)` |
| PageFrames.IssuedFramesAreDisjoint | kernel/src/memory/page_frame_allocator.rs:95-134 | until the watermark wraps, any mix of single and range allocations gives disjoint, page-aligned runs above the free-stack page |
| PageFrames.AppendRunKeepsBelow | kernel/src/memory/page_frame_allocator.rs:128-134 | a run starting one page above an unwrapped watermark keeps the runs ordered, aligned and below the new watermark |
| PageFrames.WatermarkWrapScenario | kernel/src/memory/page_frame_allocator.rs:95-134 | after one frame, a run of 2^52 - 1 pages wraps the watermark, and the next `alloc_page_frame` returns the same frame as the first |
| PageFrames.FreeThreeThenPop | kernel/src/memory/page_frame_allocator.rs:137-173 | freeing three frames at `f` and popping twice gives `f + 16`, then `f + 8`, and leaves address 1 on top |
| Allocator.Align | kernel/src/memory/allocator.rs:128-130 | a multiple of 8 below 2^64: the least one at or above `size`, or 0 when `size + 7` wraps |
| Allocator.AlignIsWrappingMask | kernel/src/memory/allocator.rs:128-130 | the alignment is the wrapping sum with its low three bits cleared |
| Allocator.AlignKeepsAligned | kernel/src/memory/allocator.rs:128-130 | a multiple of 8 aligns to itself |
| Allocator.InternalSize | kernel/src/memory/allocator.rs:41-44 | the request plus the 48-byte header, aligned to 8 and less than 8 bytes above that sum |
| Allocator.DataPointer | kernel/src/memory/allocator.rs:171 | the data pointer lies one 48-byte header past the header's address, with the same alignment |
| Allocator.GetHeaderAddress | kernel/src/memory/allocator.rs:194-196 | the header lies six words below the data pointer, the inverse of `create_new_memory_block`'s data offset |
| Allocator.HeaderOfDataPointer | kernel/src/memory/allocator.rs:170-196 | the header of a block's data pointer is the block's own address |
| Allocator.FirstFit | kernel/src/memory/allocator.rs:137-146 | the least index whose block is strictly larger than the size, or None when every block is at most the size |
| Allocator.FirstFitIsUnique | kernel/src/memory/allocator.rs:137-146 | any index with the first-fit property is the one found |
| Allocator.FirstFitAfterAppend | kernel/src/memory/allocator.rs:137-146 | when nothing fits, appending a block makes only that block a candidate |
| Allocator.RemoveAt | kernel/src/memory/allocator.rs:53 | the list without entry `i`, other entries in order |
| Allocator.NewFreeBlock | kernel/src/memory/allocator.rs:170-178 | a free block of the given size whose list node sits at its data pointer and whose header is at the given address |
| Allocator.Remainder | kernel/src/memory/allocator.rs:63-65 | the block a hit leaves behind: the chosen block's size less the internal size, never empty, with its data one header past the chosen data plus the internal size |
| Allocator.PagesFor | kernel/src/memory/allocator.rs:77-79 | the whole pages of the rounded size, covering the size to within one page |
| Allocator.Extend | kernel/src/memory/allocator.rs:157-164 | one free block of `pages` pages at `current_page + 4096` goes to the tail, and the watermark moves up by `pages` pages, both modulo 2^64 |
| Allocator.Retries | kernel/src/memory/allocator.rs:75-87 | a miss leads to 1 to 3 extensions |
| Allocator.ThirdExtensionFits | kernel/src/memory/allocator.rs:75-87 | two rounded blocks too small in a row force the third to fit |
| Allocator.RetriesDecrease | kernel/src/memory/allocator.rs:75-87 | a first extension too small for the retry leaves the retry fewer extensions |
| Allocator.Measure | kernel/src/memory/allocator.rs:46-87 | at most three more extensions are ever needed |
| Allocator.SmallRequestsAreInRange | kernel/src/memory/allocator.rs:39-89 | every request below 2^62 stays clear of usize wrap-around through all retries |
| Allocator.Malloc | kernel/src/memory/allocator.rs:39-89 | no extension exactly on a hit; at most `Measure` extensions; the header size grows 48 bytes per retry; the list grows one entry per extension |
| Allocator.MissStep | kernel/src/memory/allocator.rs:75-87 | after a miss and one extension, the retry (with the re-added header) needs strictly fewer extensions |
| Allocator.Free | kernel/src/memory/allocator.rs:97-105 | the block read from the header goes to the tail of the free list, with its node at the header |
| Allocator.RemainderOverrunsBlock | kernel/src/memory/allocator.rs:57-66 | the used part and the remainder together reach 48 bytes past the end of the block they were split from |
| Allocator.MissUnfolds | kernel/src/memory/allocator.rs:75-87 | a miss extends by `PagesFor` of the internal size, then retries with the internal size as the request |
| Allocator.PageMultipleNeedsTwoExtensions | kernel/src/memory/allocator.rs:51-87 | an internal size that is a page multiple always needs two extensions, because the first block is exactly the size the strict `>` rejects |
| Allocator.SecondExtensionFits | kernel/src/memory/allocator.rs:75-87 | the retry for a page multiple takes its one extension |
| Allocator.RetryHits | kernel/src/memory/allocator.rs:51-87 | after the first extension for a page multiple, the block just appended is the first that fits the retry's internal size |
| Allocator.RetryBlockOfPageMultiple | kernel/src/memory/allocator.rs:41-79 | for a page multiple, the retry asks for one page more and its internal size fits in it |
| Allocator.KmallocWholePageScenario | kernel/src/memory/allocator.rs:39-89 | `kmalloc(4048)` on an empty list extends by one page, then by two |
| Allocator.KmallocTwoPageScenario | kernel/src/memory/allocator.rs:39-89 | `kmalloc(5000)` on an empty list extends once by two pages and returns 48 bytes past the first frame |
| Allocator.KernelHeap.constructor | kernel/src/memory/allocator.rs:33 | an empty free list over the given frame allocator and memory |
| Allocator.KernelHeap.FindFirstFit | kernel/src/memory/allocator.rs:137-146 | the walk finds `FirstFit`'s index and block, or `(0, None)` when no block is larger than the size |
| Allocator.KernelHeap.CreateNewMemoryBlock | kernel/src/memory/allocator.rs:170-188 | a free block goes to the tail of the abstract free list, and memory keeps its words, because list nodes are not written to it; a used block's size and data pointer are written at its header; the data pointer is six words up either way |
| Allocator.KernelHeap.ExtendMemoryRegion | kernel/src/memory/allocator.rs:157-164 | the new state is `Extend` of the old one; memory keeps its words, because the new block's list node is not written to it |
| Allocator.KernelHeap.KMalloc | kernel/src/memory/allocator.rs:39-89 | the state and pointer are `Malloc`'s, and the used block's header is written just below the pointer |
| Allocator.KernelHeap.SplitBlock | kernel/src/memory/allocator.rs:49-70 | the chosen block leaves the list, the used header is written at its header address, and the remainder goes to the tail, exactly as `Malloc` takes it |
| Allocator.KernelHeap.ExtendAndRetry | kernel/src/memory/allocator.rs:75-87 | the region grows by the pages of the rounded size, and the retried allocation ends as `Malloc` says |
| Allocator.KernelHeap.KFree | kernel/src/memory/allocator.rs:97-105 | the state after is `Free` of the block read from the header below the pointer; memory is not changed, because the pushed list node is not written to it |
| Allocator.FreeAfterMallocReturnsTheBlock | kernel/src/memory/allocator.rs:39-105 | freeing an allocation's pointer pushes a block of the allocation's size and pointer |
| Allocator.ReallocationScenario | kernel/src/memory/allocator.rs:39-105 | allocate 100 bytes, free them, allocate 100 again: the second call takes the remainder at the head, not the freed block |
| LinkedList.PushFrontKeepsChain | kernel/src/ds/list.rs:60-77 | a node written at a fresh address in front of a valid chain, with the old head's `prev` pointing at it, gives a valid chain whose payloads are the new one followed by the old ones |
| LinkedList.PushBackKeepsChain | kernel/src/ds/list.rs:79-95 | a node written at a fresh address behind a valid chain, with the old tail's `next` pointing at it, gives a valid chain whose payloads are the old ones followed by the new one |
| LinkedList.UnlinkKeepsChain | kernel/src/ds/list.rs:127-154 | unlinking the node at position `k` leaves a valid chain of the other addresses, in order, with their payloads, and the removed node with both links cleared |
| LinkedList.RemoveKeepsList | kernel/src/ds/list.rs:109-157 | the head, tail, length and nodes that `remove` leaves describe the chain without the removed node |
| LinkedList.RemovedNodeEnds | kernel/src/ds/list.rs:127-148 | the head and tail `remove` picks from the removed node's links are the ends of the shortened chain |
| LinkedList.LinksAreMutual | kernel/src/ds/list.rs:60-95 | in a valid list, every node's `next` names a node of the list whose `prev` names it back |
| LinkedList.List.constructor | kernel/src/ds/list.rs:47-53 | no head, no tail, length 0 and no payloads |
| LinkedList.List.Length | kernel/src/ds/list.rs:55-58 | the counter equals the number of payloads and of linked nodes |
| LinkedList.List.PushFront | kernel/src/ds/list.rs:60-77 | the payload is prepended, the node becomes the head, and the tail too when the list was empty |
| LinkedList.List.PushBack | kernel/src/ds/list.rs:79-95 | the payload is appended, the node becomes the tail with no next node, and the head too when the list was empty |
| LinkedList.List.Walk | kernel/src/ds/list.rs:98-121 | following `index` links from the head reaches the node at that position, or None when a link runs out |
| LinkedList.List.GetMut | kernel/src/ds/list.rs:97-107 | Some exactly when the index is below the number of payloads, and then the payload at that position |
| LinkedList.List.Remove | kernel/src/ds/list.rs:109-157 | None and no change when the index is not below the length; otherwise the payload and address at that position, the rest in order, the length one lower and the node's links cleared |
| LinkedList.List.Detach | kernel/src/ds/list.rs:123-156 | unlinking the node found by the walk removes exactly its position from the payloads and addresses |
| LinkedList.List.UpdateLinks | kernel/src/ds/list.rs:127-148 | the neighbours are linked to each other, and `head` or `tail` moves past the node when it has no predecessor or no successor |
| LinkedList.List.Iter | kernel/src/ds/list.rs:166-187 | following `next` links from the head until None yields exactly the payloads in order |
| LittleEndian.Le16 | kernel/src/fs/fat.rs:174 | a little-endian pair of bytes is a 16-bit value |
| LittleEndian.Le32 | kernel/src/multitask/elf.rs:82 | a little-endian `u32` (`Elf64Word`) is below 2^32, with the 16-bit value at its address as the low half and the next one as the high half |
| LittleEndian.Le64 | kernel/src/multitask/elf.rs:83-89 | a little-endian `u64` (`usize` fields) is below 2^64, with the 32-bit value at its address as the low half and the next one as the high half |
| Fat16.Le16OfSplit | kernel/src/fs/fat.rs:153-174 | the two bytes `write_fat` stores read back, little-endian, as the value modulo 2^16 |
| Fat16.ParseBpb | kernel/src/fs/fat.rs:14-30 | the packed boot-sector record: a 3-byte jump, an 8-byte OEM name and every field within the width of its `u8`, `u16` or `u32` |
| Fat16.ParseEbr | kernel/src/fs/fat.rs:33-43 | the packed extended boot record: an 11-byte label and 448 bytes of boot code, ending exactly at byte 512, every field within its width |
| Fat16.VerifyBpb | kernel/src/fs/fat.rs:91-116 | passes exactly for the accepted geometry (jump 0xEB 0x3C 0x90, 512 bytes a sector, 4 sectors a cluster, 2 tables of 20 sectors, no large sector count), and otherwise panics with the first failing assertion's message |
| Fat16.VerifyEbr | kernel/src/fs/fat.rs:120-130 | passes exactly for signature 0x28 or 0x29 with boot signature 0xAA55; a bad signature is reported first |
| Fat16.ConvertSectorToBytes | kernel/src/fs/fat.rs:133-135 | a multiple of 512 below 2^64, and the exact byte count when it does not wrap |
| Fat16.RootDirSectors | kernel/src/fs/fat.rs:201-202 | the root directory's sector count, from a `u16` numerator, is below 128 |
| Fat16.RootDirSectorsIsCeiling | kernel/src/fs/fat.rs:201-202 | while the u16 numerator does not wrap, the least number of 512-byte sectors that hold the 32-byte root entries |
| Fat16.RootDirSectorsWraps | kernel/src/fs/fat.rs:201-202 | 2048 root entries get no sectors, and 2047 get too few |
| Fat16.Init | kernel/src/fs/fat.rs:181-207 | succeeds exactly when the boot sector's bytes pass both `verify`s, read at the packed offsets of the two records |
| Fat16.InitLayout | kernel/src/fs/fat.rs:194-206 | the table follows the reserved sectors, the root directory follows the two 20-sector tables, and the data region follows the root directory |
| Fat16.ReadFat | kernel/src/fs/fat.rs:169-175 | panics exactly when the offset is the last byte of its sector, and otherwise reads the little-endian entry at that offset |
| Fat16.ReadEntryNeverPanics | kernel/src/fs/fat.rs:137-175 | a cluster's entry, at an even offset, is always read without a panic |
| Fat16.GetNextCluster | kernel/src/fs/fat.rs:137-148 | entry 0 and 0xFFF7 panic, 0xFFF8 to 0xFFFF end the chain, and any other entry is the next cluster, each case exactly |
| Fat16.WriteFat | kernel/src/fs/fat.rs:150-155 | panics with nothing written when the entry lies past the first sector; otherwise the entry reads back as the value modulo 2^16 and no other byte changes |
| Fat16.FindFreeCluster | kernel/src/fs/fat.rs:157-167 | never None: the first byte offset below 511 that starts two zero bytes, claimed with 0xFF 0xFF and nothing else changed, or an index panic with nothing changed when there is none |
| Fat16.GetSectorFromCluster | kernel/src/fs/fat.rs:177-179 | `sector_addr + (cluster - 2) * 4` below 2^64, wrapping below cluster 2 |
| Fat16.ConsecutiveClustersOverlap | kernel/src/fs/fat.rs:177-179 | consecutive clusters are 4 bytes apart, less than the 2048 bytes a cluster spans |
| Paging.NewPage | kernel/src/memory/paging.rs:61-81 | an entry below 2^64 with the present, writable and user bits (0b111) set |
| Paging.PhysicalAddress | kernel/src/memory/paging.rs:83-85 | a page-aligned address below 2^52 |
| Paging.TableAddress | kernel/src/memory/paging.rs:118-119 | the walk's 0xFFFF_FFFF_F000 mask gives a page-aligned address below 2^48 |
| Paging.IsUnused | kernel/src/memory/paging.rs:57-59 | an unused entry maps no frame and points at no table |
| Paging.SetToUnused | kernel/src/memory/paging.rs:53-55 | the entry becomes unused |
| Paging.NewPageIsUsed | kernel/src/memory/paging.rs:57-81 | an entry `Page::new` makes is never unused, so `map_recursive` never replaces a table it created |
| Paging.PhysicalAddressOfNewPage | kernel/src/memory/paging.rs:61-85 | reading back a new entry gives the address with its low 12 and high 12 bits cleared, so an aligned address below 2^52 is recovered exactly |
| Paging.TableAddressOfNewPage | kernel/src/memory/paging.rs:61-119 | an aligned table frame below 2^48 is found again through the entry that points to it |
| Paging.Index | kernel/src/memory/paging.rs:100-103 | the index at each level is below 512 |
| Paging.SamePageIsPageNumber | kernel/src/memory/paging.rs:100-103 | two addresses have the same four indices exactly when their page numbers modulo 2^36 agree |
| Paging.ConsecutivePagesDiffer | kernel/src/memory/paging.rs:170-176 | fewer than 2^36 consecutive pages from one address never share a set of indices |
| Paging.SamePageIsSameLeaf | kernel/src/memory/paging.rs:98-121 | two addresses share a page exactly when the walk reaches the same P1 entry for both |
| Paging.LeafUpdateMapsPage | kernel/src/memory/paging.rs:98-101 | changing just the P1 entry of an address's page re-maps that page and no other address |
| Paging.WalkIsTranslate | kernel/src/memory/paging.rs:98-121 | following used entries down from the P4 table reaches the P1 entry the path abstraction names, or ends at 0 at an unused entry |
| Paging.NoSlotBelowUnused | kernel/src/memory/paging.rs:105 | below an unused entry there is no table, so the address translates to 0 |
| Paging.AddTableKeepsValid | kernel/src/memory/paging.rs:105-116 | hanging a fresh zeroed frame above every existing frame under an unused entry keeps the hierarchy valid |
| Paging.AddTableKeepsLeaves | kernel/src/memory/paging.rs:105-116 | a new, all-zero table changes no address's translation |
| Paging.WriteLeafKeepsValid | kernel/src/memory/paging.rs:98-101 | writing a P1 entry keeps the hierarchy valid |
| Paging.WriteLeafUpdates | kernel/src/memory/paging.rs:98-101 | writing a P1 entry changes exactly that P1 entry |
| Paging.OutsideRunIsNoPage | kernel/src/memory/paging.rs:170-176 | an address is outside a run of pages exactly when it shares a page with none of them |
| Paging.RunStep | kernel/src/memory/paging.rs:171-175 | a run of `n` mapped pages followed by the mapping of page `n` is a run of `n + 1` mapped pages |
| Paging.PageTables.constructor | kernel/src/memory/paging.rs:30 | a valid hierarchy holding only an empty P4 table |
| Paging.PageTables.WriteLeaf | kernel/src/memory/paging.rs:98-101 | the one P1 entry for the address becomes `Page::new(p_addr)`; the paths and frames stay as they were |
| Paging.PageTables.NextTable | kernel/src/memory/paging.rs:103-119 | a used entry is only followed; an unused one gets a new frame from the allocator as its table, adding one path and one page to the watermark; running out of frames is reported; no translation changes |
| Paging.PageTables.AddTable | kernel/src/memory/paging.rs:104-115 | an unused entry gets a new frame as its table: one new path, one page on the watermark, no translation changed; running out of frames is reported |
| Paging.PageTables.MapRecursive | kernel/src/memory/paging.rs:90-123 | on success only the P1 entry of `v`'s page changes, to `Page::new(p)`, and one frame is taken for each missing table; failure means the allocator ran out |
| Paging.PageTables.Map | kernel/src/memory/paging.rs:166-193 | on success every address in `v`'s page translates through `Page::new(p)`, every other address as before, with one frame taken per missing table |
| Paging.PageTables.MapPages | kernel/src/memory/paging.rs:170-184 | on success page `i` of the virtual run translates to page `i` of the physical run for every `i` below the count, and every other address as before |
| Paging.PageTables.MapNext | kernel/src/memory/paging.rs:171-175 | one more turn of the loop maps page `i` of the virtual run to page `i` of the physical run, keeping the pages already mapped |
| Gdt.FlagsConcat | kernel/src/memory/gdt.rs:202-218 | accumulating a concatenation of flag lists ORs the two accumulations |
| Gdt.FlagsHasMember | kernel/src/memory/gdt.rs:202-218 | every listed flag's bits are set in the result |
| Gdt.FlagsHaveNoStrayBits | kernel/src/memory/gdt.rs:202-218 | no bit outside bits 40, 41, 43-47 and 53 is ever set |
| Gdt.FlagsAbsorbed | kernel/src/memory/gdt.rs:202-218 | a list's flags add nothing to a list that already names all of them |
| Gdt.ParseFlagsIgnoresOrder | kernel/src/memory/gdt.rs:202-218 | lists naming the same flags, in any order and with any repetition, give the same value |
| Gdt.ParseFlags | kernel/src/memory/gdt.rs:202-218 | the loop returns the left-to-right OR of the listed flags' bits |
| Gdt.Generate | kernel/src/memory/gdt.rs:184-188 | limit bits 0-15 and 48-51 are set and every other bit is kept |
| Gdt.KernelCodeSegment | kernel/src/memory/gdt.rs:113-122 | the kernel code segment is 0x002F_9B00_0000_FFFF: present, privilege 0, executable, long mode |
| Gdt.KernelDataSegment | kernel/src/memory/gdt.rs:124-132 | the kernel data segment is 0x002F_9300_0000_FFFF: as the code segment but not executable |
| Gdt.UserCodeSegment | kernel/src/memory/gdt.rs:134-144 | the user code segment is 0x002F_FB00_0000_FFFF: privilege 3 |
| Gdt.UserDataSegment | kernel/src/memory/gdt.rs:146-155 | the user data segment is 0x002F_F300_0000_FFFF |
| Gdt.TaskStateSegment | kernel/src/memory/gdt.rs:157-182 | never panics; a system segment with limit 103, base bits 0-15 and 16-23 in place, and access byte 0x89 ORed with base bits 24-31 |
| Gdt.TssDescriptorBelow16MiB | kernel/src/memory/gdt.rs:157-182 | a TSS below 16 MiB gets the descriptor section 7.2.3 of the Intel SDM lays out |
| Gdt.TssDescriptorAbove16MiB | kernel/src/memory/gdt.rs:168-174 | a TSS at 32 MiB gets type 0xB, a busy TSS, instead of the architected descriptor |
| Gdt.GlobalDescriptorTable.constructor | kernel/src/memory/gdt.rs:52-57 | eight zero slots with one, the null descriptor, in use |
| Gdt.GlobalDescriptorTable.Pointer | kernel/src/memory/gdt.rs:79-85 | the limit is the size in bytes of the slots in use less one, and the base is the table's address |
| Gdt.GlobalDescriptorTable.AddEntry | kernel/src/memory/gdt.rs:87-104 | a segment fills the next slot and a system segment the next two (its word, then 0); writing past slot 8 panics after the writes already made |
| Gdt.GlobalDescriptorTable.Initalise | kernel/src/memory/gdt.rs:59-67 | succeeds exactly when at most two slots were in use, and then appends the four segments, the TSS word and 0 after the slots already used |
| Gdt.InitaliseFresh | kernel/src/memory/gdt.rs:37-85 | on the fresh table seven slots are in use, the TSS sits at selector 0x28 where `load_tss` looks, and the `lgdt` limit is 55 |
| Elf.ParseHeader | kernel/src/multitask/elf.rs:40-56 | the packed 64-byte header read at the file's start: a 16-byte ident, and fields within their widths |
| Elf.ValidateFile | kernel/src/multitask/elf.rs:106-153 | true exactly for a little-endian 64-bit x86-64 executable of ELF version 1; otherwise it panics on a check that fails |
| Elf.ValidateFileReportsFirstFailure | kernel/src/multitask/elf.rs:106-150 | the check reported is the first that fails: every check before it passed |
| Elf.ValidateFileOnBytes | kernel/src/multitask/elf.rs:106-153 | validation passes exactly when the file begins 7F 'E' 'L' 'F', 2, 1, 1 and has type 2 and machine 0x3E as little-endian halves |
| Elf.ParseProgramHeader | kernel/src/multitask/elf.rs:79-90 | the packed 56-byte program header, fields within their widths |
| Elf.ProgramHeaderAddress | kernel/src/multitask/elf.rs:168-169 | `file_start + e_phoff + 56 * i` below 2^64, exact when it does not wrap |
| Elf.ProgramHeadersAreContiguous | kernel/src/multitask/elf.rs:167-170 | consecutive program headers are 56 bytes apart |
| Elf.ProgramHeaderTable | kernel/src/multitask/elf.rs:167-170 | the table holds `e_phnum` headers |
| Elf.LoadableIsAllExactlyWhenAllLoad | kernel/src/multitask/elf.rs:172-185 | only `PT_LOAD` headers are loaded, and every header is loaded exactly when every header is `PT_LOAD` |
| Elf.LoadableIsTheLoadHeaders | kernel/src/multitask/elf.rs:172-185 | a header is loaded exactly when it is a `PT_LOAD` header of the table |
| Elf.SegmentBytes | kernel/src/multitask/elf.rs:205-208 | the destination holds the file bytes, then zeros up to `memsz`; it is as long as the longer of the two |
| Elf.SegmentFitsItsFrames | kernel/src/multitask/elf.rs:196-207 | a file part no longer than `memsz` fits in the frames allocated, and one longer than the rounded size spills past them |
| Elf.LoadSegmentIntoMemory | kernel/src/multitask/elf.rs:189-215 | frames for the rounded `memsz` are taken from the allocator, they hold the segment's bytes, and `v_address` plus the rounded size is returned |
| Elf.LoadedSegmentEnd | kernel/src/multitask/elf.rs:196-214 | the returned end lies past every byte of the segment by less than a page, and is page-aligned when the virtual address is |
| Elf.LoadedAllSnoc | kernel/src/multitask/elf.rs:167-186 | loading one more header extends the loaded segments in order |
| Elf.IssuedForSnoc | kernel/src/multitask/elf.rs:199-201 | each loaded segment adds its own frames to the allocator's record |
| Elf.LoadIfLoadable | kernel/src/multitask/elf.rs:172-185 | a `PT_LOAD` header is loaded with frames of its own; any other header leaves the allocator unchanged |
| Elf.ParseProgramHeaders | kernel/src/multitask/elf.rs:160-187 | segment `k` is loaded from the `k`-th `PT_LOAD` header of the table, each into frames of its own |
| Elf.LoadNext | kernel/src/multitask/elf.rs:167-185 | reading header `i` extends the loaded segments by one exactly when it is `PT_LOAD`, with one more frame run in the allocator record |
| Elf.Parse | kernel/src/multitask/elf.rs:99-103 | succeeds exactly for a supported header; a failure is `validate_file`'s panic with no frame taken; a success loads every `PT_LOAD` segment |
| Rtc.BcdToBinary | kernel/src/utils/rtc.rs:71-77 | a valid BCD byte (both nibbles below ten) decodes to ten times its high nibble plus its low nibble, below 100 |
| Rtc.BcdYearToBinary | kernel/src/utils/rtc.rs:76 | the year, converted on its `u16` field, decodes a valid BCD value to ten times its high nibble plus its low nibble, below 100 |
| Rtc.YearDecodesLikeByteFields | kernel/src/utils/rtc.rs:71-76 | a year read from its one register byte converts to the same value as the one-byte fields' conversion gives that byte, valid BCD or not |
| Rtc.BcdRoundTrip | kernel/src/utils/rtc.rs:71-75 | decoding undoes the clock's BCD encoding of any number below 100 |
| Rtc.BcdHourToBinary | kernel/src/utils/rtc.rs:73 | an hour without the PM flag decodes like any other field, and the flag survives the conversion |
| Rtc.To24 | kernel/src/utils/rtc.rs:85-89 | only a 12-hour clock's PM hour changes, to a value below 24 that is twelve hours from the masked hour |
| Rtc.CalculatedYear | kernel/src/utils/rtc.rs:62-67 | a two-digit year lands in 2024 to 2123 and keeps its last two digits |
| Rtc.DateTime.constructor | kernel/src/utils/rtc.rs:22-31 | every field zero |
| Rtc.DateTime.CopyFrom | kernel/src/utils/rtc.rs:45-52 | every field takes the other's value |
| Rtc.DateTime.CalculateYear | kernel/src/utils/rtc.rs:62-67 | only the year changes, to the calculated year |
| Rtc.DateTime.ConvertToBinary | kernel/src/utils/rtc.rs:69-78 | with register B's binary bit clear every field is decoded from BCD; with it set nothing changes |
| Rtc.DateTime.ConvertToBst | kernel/src/utils/rtc.rs:80-83 | the hour goes up by one, wrapping at 256 |
| Rtc.DateTime.ConvertTo24 | kernel/src/utils/rtc.rs:85-89 | only the hour changes, as `To24` says |
| Rtc.DateTime.Convert | kernel/src/utils/rtc.rs:140-145 | the four conversions of `read_rtc`, in order, on each field |
| Rtc.BcdPmHourIsEightHoursLate | kernel/src/utils/rtc.rs:73-89 | 1 PM on a BCD 12-hour clock becomes 21, while in binary mode it becomes 13 |
| Rtc.NoonAndMidnightSwap | kernel/src/utils/rtc.rs:85-89 | 12 PM becomes 0 and 12 AM stays 12 |
| Rtc.BstPassesMidnight | kernel/src/utils/rtc.rs:80-89 | 23 o'clock becomes 24 after the summer-time hour |
| Mouse.SignExtend | kernel/src/dev/mouse.rs:163-165 | the byte as the low half of a negative 9-bit value: the byte minus 256 |
| Mouse.Movement | kernel/src/dev/mouse.rs:108-123 | a sign bit and a byte give a movement from -256 to 255, negative exactly when the sign bit is set |
| Mouse.MovementRoundTrip | kernel/src/dev/mouse.rs:108-123 | every movement from -256 to 255 is recovered from its sign and its low byte |
| Mouse.MovementIsInjective | kernel/src/dev/mouse.rs:108-123 | different sign bits or bytes give different movements |
| Mouse.AsUsize | kernel/src/dev/mouse.rs:112-122 | a signed value cast to usize is its two's complement modulo 2^64 |
| Mouse.WrappingAdd | kernel/src/dev/mouse.rs:110-122 | `wrapping_add` is the sum, less 2^64 when it overflows |
| Mouse.WrappingAddOfCast | kernel/src/dev/mouse.rs:110-122 | adding a signed value cast to usize is adding it modulo 2^64 |
| Mouse.MoveX | kernel/src/dev/mouse.rs:109-115 | both branches for x add the 9-bit movement of byte 1 |
| Mouse.MoveY | kernel/src/dev/mouse.rs:117-123 | both branches for y subtract the 9-bit movement of byte 2 |
| Mouse.Mouse.constructor | kernel/src/dev/mouse.rs:175-182 | the position (512, 384), no bytes collected, the button state Immobile |
| Mouse.Mouse.HandleMouseInterrupt | kernel/src/dev/mouse.rs:63-75 | a byte not from the mouse changes nothing; a mouse byte is stored at the index, which advances modulo 4, and the packet is decoded exactly when the index comes back to 0 |
| Mouse.Mouse.HandleMousePackets | kernel/src/dev/mouse.rs:81-128 | an overflow flag or a missing always-one bit drops the packet; otherwise bit 0 sets the button state, x moves right by the movement in byte 1 and y down by the one in byte 2, both wrapping |
| Mouse.FourBytesMakeAPacket | kernel/src/dev/mouse.rs:63-75 | four bytes from index 0 fill the packet in order and decode it once |
| Keyboard.TableHas0x3AEntries | kernel/src/dev/keyboard.rs:109-114 | the table has 0x3A entries |
| Keyboard.ShiftDown | kernel/src/dev/keyboard.rs:48 | the result is a byte: 0x20 below the character from 0x20 on, and wrapped to 0xE0 above it below 0x20 |
| Keyboard.Translate | kernel/src/dev/keyboard.rs:36-52 | Enter returns its own code; scancodes above 0x3A return '0'; 0x3A indexes past the table and panics; otherwise the table entry, 0x20 lower when upper case |
| Keyboard.UppercaseLetters | kernel/src/dev/keyboard.rs:47-51 | with upper case a letter key gives its capital, 32 below the lower-case letter |
| Keyboard.EveryLetterButLHasAKey | kernel/src/dev/keyboard.rs:109-114 | every lower-case letter except `l` is in the table |
| Keyboard.TableLacksL | kernel/src/dev/keyboard.rs:109-114 | the `L` key's entry is NUL and no entry is `l`, which is why the handler prints "l" itself |
| Keyboard.ShiftedDigitsAreControlCodes | kernel/src/dev/keyboard.rs:47-48 | shift-1 gives the control code 0x11 and shift-space gives NUL |
| Keyboard.ZeroKeyIsSilent | kernel/src/dev/keyboard.rs:50-71 | the `0` key translates to '0', the handler's "no key" marker |
| Keyboard.Keyboard.constructor | kernel/src/dev/keyboard.rs:107-108 | lower case at start-up |
| Keyboard.Keyboard.HandleKeyboard | kernel/src/dev/keyboard.rs:54-77 | a mouse byte changes nothing; the shift keys set upper case and their releases clear it; caps lock flips it; `L` prints "l"; any other key prints its translation unless that is '0' and the key is not Enter |
| Keyboard.CapsLockTwice | kernel/src/dev/keyboard.rs:66 | two caps-lock presses leave the case as it was |
| VgaText.NewColourCode | kernel/src/output/vga_text.rs:64-67 | two colours below 16 are recovered from the high and low nibbles |
| VgaText.WhiteOnBlack | kernel/src/output/vga_text.rs:35-67 | white on black is 0x0F |
| VgaText.ColoursOver15Spill | kernel/src/output/vga_text.rs:64-67 | a colour over 15 spills into the other nibble |
| VgaText.CharBits | kernel/src/output/vga_text.rs:70 | a character below 2^16 is its own code point |
| VgaText.Entry | kernel/src/output/vga_text.rs:69-71 | for a character below 256, the colour is the high byte and the character the low byte |
| VgaText.Screen.constructor | kernel/src/output/vga_text.rs:30-37 | the cursor at the top left of a 25 x 80 grid, in colour 0x0F |
| VgaText.Screen.NewLine | kernel/src/output/vga_text.rs:90-93 | column 0 of the next row |
| VgaText.Screen.PutChar | kernel/src/output/vga_text.rs:75-88 | a newline only moves the cursor; writing below the last row panics and changes nothing; otherwise exactly the cursor's cell gets the entry and the cursor moves right, to the next row after column 79 |
| VgaText.Screen.Clear | kernel/src/output/vga_text.rs:95-107 | every cell holds a space in the screen's colour and the cursor is back at the top left |
| HashMaps.Hash | kernel/src/ds/hashmap.rs:189-191 | a slot below 5, the key itself for keys below 5 |
| HashMaps.HashIsPeriodic | kernel/src/ds/hashmap.rs:189-191 | keys five apart share a slot |
| HashMaps.HashCollides | kernel/src/ds/hashmap.rs:189-191 | two keys share a slot exactly when they differ by a multiple of 5 |
| HashMaps.HashMap.constructor | kernel/src/ds/hashmap.rs:39-43 | five empty slots |
| HashMaps.HashMap.Set | kernel/src/ds/hashmap.rs:46-94 | an empty slot gets the new item and the key joins the map's keys; an occupied slot is left as it was, whatever key it holds |
| HashMaps.HashMap.Get | kernel/src/ds/hashmap.rs:97-123 | always None |
| HashMaps.HashMap.Delete | kernel/src/ds/hashmap.rs:164-187 | the slot is emptied exactly when it holds the key, nothing changes otherwise, and the key is no longer in the map |
| HashMaps.HashMap.KeysWithoutAbsentKey | kernel/src/ds/hashmap.rs:170-191 | a key not in its own slot is not in the map |
| HashMaps.HashMap.KeysAfterFill | kernel/src/ds/hashmap.rs:89-92 | filling an empty slot adds exactly its key |
| HashMaps.HashMap.KeysAfterClear | kernel/src/ds/hashmap.rs:170-174 | emptying a slot removes exactly its key |
| HashMaps.SetThenDelete | kernel/src/ds/hashmap.rs:46-187 | setting a key in an empty slot, setting a colliding key, then deleting the first key restores the map |
| Vec.DynamicArray.constructor | kernel/src/ds/vec.rs:12-18 | empty, with capacity and allocation of fifty elements |
| Vec.DynamicArray.Push | kernel/src/ds/vec.rs:20-42 | below capacity the element goes into slot `length`; at capacity every earlier element is lost, the capacity becomes 0 and the allocation fifty, and the element is written at the old length |
| Vec.DynamicArray.IsEmpty | kernel/src/ds/vec.rs:54-56 | true exactly when the length is 0 |
| Vec.DynamicArray.Length | kernel/src/ds/vec.rs:58-60 | the length |
| Vec.DynamicArray.Get | kernel/src/ds/vec.rs:66-72 | Some exactly for an index below the length, holding the value pushed there if it is still written |
| Vec.PushAll | kernel/src/ds/vec.rs:20-42 | pushes that fit in the capacity append the elements at consecutive indices and keep the earlier ones |
| Vec.FiftyFirstPushLosesTheRest | kernel/src/ds/vec.rs:12-42 | 51 pushes into a new array keep only the last element, written past the end of the fifty-element allocation |
| Events.CharByte | kernel/src/utils/event.rs:53 | `character as u8` is the code point for characters below 256 |
| Events.Event.Clear | kernel/src/utils/event.rs:23-29 | every field is zero |
| Events.EventManager.constructor | kernel/src/utils/event.rs:38-47 | two different events, the first cleared |
| Events.EventManager.UpdateKeyEvent | kernel/src/utils/event.rs:49-55 | the scancode and the character's low byte are recorded and the key bit is set; other bits and the mouse position are kept |
| Events.EventManager.UpdateMouseEvent | kernel/src/utils/event.rs:57-76 | the position is recorded and each click bit is set only when its argument is true; no bit is cleared |
| Events.EventManager.GetEvent | kernel/src/utils/event.rs:78-92 | the returned event holds the old fields and the current event is cleared |
| Events.KeyThenTwoReads | kernel/src/utils/event.rs:49-92 | after a key press and two reads both events are clear |

## Left out

- Port, PIC, PIT, UART, PS/2 controller, GRUB multiboot and CMOS register access (`read_rtc`, `update_values`, keyboard and mouse initialisation): hardware I/O. Its results are parameters instead.
- `lgdt`, `ltr`, TLB flushes and the other inline assembly: these instructions have no effect the model could observe. `Gdt.GlobalDescriptorTable.Pointer` computes the operand that `lgdt` would receive.
- The interrupt descriptor table, the ISR trampolines and interrupt dispatch: naked assembly and function-address packing.
- The spinlocks around the global allocators and devices: concurrency is out of scope. Each operation is modelled as one uninterrupted step.
- Graphics, the virtual file system tree, processes and scheduling, the boot glue, userland, and earlier revisions of the files that the build no longer uses: these lie outside the kernel core modelled here.
- `unmap_recursive` and the page tables' `drop`: unmapping is not part of this model.
- The recursive self-mapping of the P4 table: the model reaches tables by their physical address. It does not find them through the self-referencing virtual window.
- `kfree`'s merge with the next free block (kernel/src/memory/allocator.rs:110-122) is not modelled. The branch is live code, but it reads `header.next` right after `push_back` has written a fresh node with `next = None` at that same header (`LinkedList.List.PushBack` ensures the new node's `next` is None), so it never runs. `Allocator.Free` appends the block and stops, which is what the source does.
- The byte copy of an ELF segment's file part and the call to `map_pages` are not modelled. `Elf.LoadSegmentIntoMemory` states the destination's content as `Elf.SegmentBytes`; it does not model the copy loop or the change to the page tables.
- `TaskStateSegment::new` is not modelled. Only the TSS's size and address are used.
- The `is_user` argument of `map_page`: the flags never depend on it, because `Page::new` always sets the user bit.
- `ListNode::get_mut_ref` and `get_mut_ref_optional` are not modelled. They turn a raw pointer into a reference and panic on a null or missing one. In the model a link is an `Option` of a node address, and the node is looked up directly.
- `DynamicArray::empty` is not modelled. It zeroes `size_of::<T>() * length` bytes of the buffer and leaves `length` unchanged, and a zero-filled value of an arbitrary type `T` has no counterpart in the model.
- `print_memory_list` is not modelled: it is debug output only.
- The `kmalloc` calls made by the hash map, the growable array and the event manager are not modelled. Their results are parameters or fresh objects.
- Strings.GetStringFromPtr: `core::str::from_utf8(...).unwrap()` is not modelled, and the result stays a byte sequence. The source panics on bytes that are not valid UTF-8, where the model returns them. `str::trim` also removes non-ASCII Unicode whitespace such as U+00A0 (bytes C2 A0), which `Strings.IsWhitespace` treats as ordinary bytes and keeps.
- Debug-build overflow panics: where the model lets a value reach its limit, it follows release-build wrap-around.
- VgaText.Screen: `current_row` is unbounded. A `usize` wrap after 2^64 new lines is not modelled.
- VgaText.Entry: the contract says nothing about characters at or above 256, whose high bits overlap the colour byte.
- VgaText.CharBits: the contract says nothing about characters at or above 2^16.
- Events.CharByte: the contract is stated only for characters below 256. Above 256 the body keeps the low byte.
- PageFrames.PageFrameAllocator.FreePageFrame: requires the free stack to exist, where the source panics through `expect`. The chain of the stack is promised intact afterwards only when no link of it lies in the freed page; a double free or a page overlapping a link is modelled, but the chain it leaves is not described.
- PageFrames.PageFrameAllocator.FreePageFrames: requires the free stack to exist, like `FreePageFrame`. Its result is stated exactly as memory, top, counter and pushed frames; only `PageFrames.FreedRunLinksToOne` describes what the links read afterwards.
- PageFrames.FreeStack: the `top` and `length` fields live in the class, not in `PhysicalMemory.Memory`, so a frame freed over the `FreeStack` struct at `memory_start` does not overwrite them. `length` is unbounded; its `usize` wrap after 2^64 pushes is not modelled.
- PageFrames.PageFrameAllocator.Valid: the ordering and bound facts about issued runs hold only while the ghost flag `Wrapped` is false; after the watermark wraps, the model states the new watermark and the runs handed out, but not that they are disjoint (`PageFrames.WatermarkWrapScenario` shows they are not).
- PageFrames.IssuedFramesAreDisjoint: requires the watermark never to have wrapped, because after a wrap the runs overlap.
- Paging.PageTables.NextTable: a frame taken from `alloc_page_frame` for a new table is assumed to hold 512 zero entries (`Paging.EmptyTable`). The source never clears it; `alloc_page_frame` returns whatever the frame held. The same assumption carries over to `Paging.PageTables.MapRecursive`, `Paging.PageTables.Map`, `Paging.PageTables.MapPages`, `Paging.AddTableKeepsValid` and `Paging.AddTableKeepsLeaves`: a frame holding stale entries would make them translate addresses the model reports as unmapped.
- Paging.PageTables.AddTable: makes the same zero-table assumption as `Paging.PageTables.NextTable`, since it is the branch that installs the new table.
- Paging.PageTables.MapNext: makes the same zero-table assumption, through `Paging.PageTables.Map`.
- Paging.PageTables.Valid: requires `memory_end + 4096` below 2^48, so every table frame lies below the top of the 48-bit physical space and the watermark never wraps while tables are allocated. Page tables in a larger or wrapping memory are not modelled.
- Paging.PageTables.MapPages: requires fewer than 2^36 pages, and requires that the last addresses of the run, `v_addr + (n - 1) * 4096` and `p_addr + (n - 1) * 4096`, stay below 2^64. A run whose sums would wrap a `usize` is not modelled; a debug build panics there. Virtual addresses are reduced to their 36-bit page number. `Paging.PageTables.MapNext` has the same requirements.
- Allocator.Malloc: requires the request to be in range (`Allocator.InRange`, below 2^63 minus the header bytes of every retry, `Allocator.HEAP_LIMIT`). Requests that make `size + 48` or the rounded size wrap in `usize` are not modelled.
- Allocator.KernelHeap: the heap's free list is an abstract sequence of blocks with their node addresses. `push_back` writes a six-word `ListNode` at the node's address and rewrites the old tail's `next` (kernel/src/ds/list.rs:81-90), and neither write reaches `PhysicalMemory.Memory` here. Because of the 48-byte overrun (`Allocator.RemainderOverrunsBlock`), a remainder's node can cover the used header of the next region, so a later `kfree` may read in the model a header that the source would have overwritten.
- Allocator.KernelHeap.CreateNewMemoryBlock: its free branch ensures memory unchanged, where the source writes the new node at `dp_addr` and the old tail's `next`, as stated for `Allocator.KernelHeap`.
- Allocator.KernelHeap.ExtendMemoryRegion: ensures memory unchanged, because the node written by `create_new_memory_block` is not modelled, as stated for `Allocator.KernelHeap`.
- Allocator.KernelHeap.KFree: does not modify memory, though `push_back` writes a node at the header and the old tail's `next`. A double `kfree` appends a second entry for the same address. In the source it links the same node again and turns the chain into a cycle.
- Allocator.KernelHeap.SplitBlock: the remainder's node write at its data pointer is not modelled, as stated for `Allocator.KernelHeap`. `Allocator.KernelHeap.KMalloc` and `Allocator.KernelHeap.ExtendAndRetry` drop the node writes of the blocks they add in the same way.
- LinkedList.List.PushFront: requires `addr` not to be linked already, and the nodes are kept in a map from address to node, so two nodes less than 48 bytes apart never overlap in the model. The source accepts any address (kernel/src/ds/list.rs:60-77). Pushing a linked address there corrupts the chain, and overlapping nodes overwrite each other's fields.
- LinkedList.List.PushBack: has the same two exclusions as `LinkedList.List.PushFront` (kernel/src/ds/list.rs:79-95). This is the case a double `kfree` reaches in the source: it pushes a header that is already linked, and the chain becomes a cycle.
- The serial debug prints are output only, and no state depends on them: the left-button message in `handle_mouse_packets` (kernel/src/dev/mouse.rs:96), the BPB dump in `fat::init` (kernel/src/fs/fat.rs:184), `DateTime::print` (kernel/src/utils/rtc.rs:33-43), and the page-frame allocator's start-of-memory and over-the-limit messages (kernel/src/memory/page_frame_allocator.rs:51 and 99).
- Allocator.KernelHeap.KMalloc: has the same range requirement as `Allocator.Malloc`, and so do `Allocator.KernelHeap.SplitBlock` and `Allocator.KernelHeap.ExtendAndRetry`.
- Allocator.DataPointer: the data pointer `header + 48`, the remainder address `data + size` and the block end are unbounded integers; their `usize` wrap is not modelled. Only the watermark (`Allocator.Extend`) wraps.
- `get_page_number` (kernel/src/multitask/elf.rs:197) is not defined anywhere in the kernel, so the ELF loader as written does not build. The model reads it as `get_number_of_pages` from kernel/src/memory/page_frame_allocator.rs:186-188.
- `remove_at` (kernel/src/memory/allocator.rs:53 and 120) is not a method of the `List` from kernel/src/ds/list.rs that the allocator imports; only the separate list in kernel/src/ds/stack.rs has one. The model reads the call at line 53 as deleting entry `index` and keeping the others in order (`Allocator.RemoveAt`); the call at line 120 lies in the `kfree` merge branch, which is not modelled.

## Quirks

The model reproduces these behaviours of the code as written and proves each one. None of them is corrected.

- **RTC, BCD hour.** The BCD conversion of the hour keeps the PM flag (bit 7) in its tens digit, so a BCD 12-hour clock reports 1 PM as 21 (`Rtc.BcdPmHourIsEightHoursLate`).
- **RTC, noon and midnight.** The 12-to-24-hour conversion turns 12 PM into 0 and leaves 12 AM at 12 (`Rtc.NoonAndMidnightSwap`).
- **RTC, summer time.** Summer time is added without wrapping the day, so 23:00 becomes 24 (`Rtc.BstPassesMidnight`).
- **GDT, TSS above 16 MiB.** The TSS descriptor ORs base bits 24-31 into the access byte, so a TSS at or above 16 MiB gets a busy type or other wrong bits (`Gdt.TssDescriptorAbove16MiB`).
- **FAT16, cluster addressing.** `get_sector_from_cluster` adds `(cluster - 2) * 4` to a byte address. Consecutive clusters are therefore 4 bytes apart instead of 2048 (`Fat16.GetSectorFromCluster`, `Fat16.ConsecutiveClustersOverlap`).
- **FAT16, free-cluster search.** `find_free_cluster` indexes one byte past its 512-byte view when no free pair is found, so it panics and never returns None (`Fat16.FindFreeCluster`).
- **FAT16, root directory size.** The root-directory sector count is computed in `u16` and wraps at 2048 entries (`Fat16.RootDirSectorsWraps`).
- **FAT16, table reads and writes.** `read_fat` panics for an entry at the last byte of a sector (`Fat16.ReadFat`). `write_fat` only ever sees the table's first sector (`Fat16.WriteFat`).
- **Heap, page-multiple requests.** The `kmalloc` retry passes the already enlarged size, so the header is added again. A request whose internal size is a page multiple therefore always needs two extensions (`Allocator.PageMultipleNeedsTwoExtensions`, `Allocator.KmallocWholePageScenario`).
- **Heap, remainder block.** The remainder block is placed at `data + size` rather than at the header's end. The used part and the remainder together run 48 bytes past the split block (`Allocator.RemainderOverrunsBlock`).
- **Heap, block reuse.** Freeing an allocation and allocating the same size again takes the remainder at the head of the free list, not the freed block (`Allocator.ReallocationScenario`).
- **Page frames, single-frame allocation.** `alloc_page_frame` ignores the free stack, because the pop is commented out. It bumps the watermark by one page and returns the new watermark, not the frame the watermark pointed at before. The bound check tests the old value, so with `current_page == memory_end` the check passes and the frame at `memory_end + 4096` is handed out (`PageFrames.PageFrameAllocator.AllocPageFrame`).
- **Page frames, stack length.** The free stack's `pop` never decrements `length`, so `is_empty` is false after a push and a pop (`PageFrames.PopKeepsLength`).
- **Page frames, range release.** `free_page_frames` offsets by words rather than pages. The frames it frees therefore lie 8 bytes apart, and each one's zeroing and link overwrite the link of the one before. Every frame of the run but the top one then links to address 1, and the stack below the run is lost (`PageFrames.PageFrameAllocator.FreePageFrames`, `PageFrames.FreedRunLinksToOne`, `PageFrames.FreeThreeThenPop`).
- **Page frames, watermark wrap.** `current_page` is a `usize` that `alloc_page_frames` bumps with no bound check, so a large enough request wraps it round 2^64. The next `alloc_page_frame` then hands out frames that were handed out before (`PageFrames.WatermarkWrapScenario`).
- **ELF, oversized file part.** A segment whose file part is larger than its rounded memory size is copied past the frames allocated for it (`Elf.SegmentFitsItsFrames`).
- **Mouse, packet size.** Packets are collected four bytes at a time, while a standard PS/2 mouse sends three (`Mouse.FourBytesMakeAPacket`).
- **Keyboard, shifted digits.** Shift subtracts 0x20 from every table entry, so shifted digits and punctuation become control codes (`Keyboard.ShiftedDigitsAreControlCodes`).
- **Keyboard, Enter.** Enter is returned as its scancode 0x1C, not as a newline (`Keyboard.Translate`).
- **Keyboard, the `L` key.** The table has no `l`, and the handler prints the letter itself (`Keyboard.TableLacksL`).
- **Keyboard, the `0` key.** The `0` key prints nothing, because '0' doubles as "no key" (`Keyboard.ZeroKeyIsSilent`).
- **Keyboard, scancode 0x3A.** Indexing the table with 0x3A would be out of bounds. The handler catches caps lock first, so that index is never reached (`Keyboard.Translate`, `Keyboard.Keyboard.HandleKeyboard`).
- **Hash map, set and get.** `set` never stores the value and drops a colliding key (`HashMaps.HashMap.Set`). `get` always returns None (`HashMaps.HashMap.Get`).
- **Growable array, resize.** The resize swaps the arguments of `ptr::copy`, resets the capacity to 0 and never uses `new_capacity`. The 51st push therefore loses every earlier element and writes past the 50-element allocation (`Vec.DynamicArray.Push`, `Vec.FiftyFirstPushLosesTheRest`).
- **VGA, last row.** The screen never scrolls, so writing below row 24 panics (`VgaText.Screen.PutChar`).
- **VGA, colour values.** A colour above 15 spills into the other nibble of the colour byte (`VgaText.ColoursOver15Spill`).
