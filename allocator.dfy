/** The kernel heap's first-fit allocator (kernel/src/memory/allocator.rs). Every
    block is a header of NODE_MEMORY_BLOCK_SIZE words followed by data; free
    blocks sit on a free list that grows by asking the page-frame allocator
    for whole pages. */
module Allocator {
  import opened Wrappers
  import opened PhysicalMemory
  import opened PageFrames

  /** `size_of::<ListNode<MemoryBlock>>() / 8`: the payload (size, data) plus
      two `Option<*mut ListNode>` links of two words each. */
  const NODE_MEMORY_BLOCK_SIZE: nat := 6
  const HEADER_BYTES: nat := 48

  /** Requests are modelled below 2^63 bytes, far from where the usize
      additions of `kmalloc` would wrap. */
  const HEAP_LIMIT: nat := 0x8000_0000_0000_0000

  /** `MemoryBlock`: a size in bytes (header included) and the data pointer. */
  datatype MemoryBlock = MemoryBlock(size: nat, data: int)

  /** A free-list entry: the block and the address its list node was placed at. */
  datatype FreeNode = FreeNode(block: MemoryBlock, addr: int)

  /** The allocator's global state: the free list and the frame watermark. */
  datatype HeapState = HeapState(freeList: seq<FreeNode>, currentPage: int)

  /** `align`: `(size as i64 + 7) & -8` read back as a usize; a sum that
      wraps is below 7 and masks to 0. */
  function Align(size: nat): (r: nat)
    requires size < USIZE_MODULUS
    ensures r < USIZE_MODULUS && r % 8 == 0
    ensures size + 7 < USIZE_MODULUS ==> size <= r < size + 8
    ensures size + 7 >= USIZE_MODULUS ==> r == 0
  {
    if size + 7 < USIZE_MODULUS then (size + 7) - (size + 7) % 8 else 0
  }

  /** The alignment is the wrapping sum with its low three bits cleared. */
  lemma AlignIsWrappingMask(size: nat)
    requires size < USIZE_MODULUS
    ensures var sum := (size + 7) % USIZE_MODULUS;
            Align(size) == sum - sum % 8
  {
  }

  lemma AlignKeepsAligned(size: nat)
    requires size + 7 < USIZE_MODULUS && size % 8 == 0
    ensures Align(size) == size
  {
  }

  /** The internal size `kmalloc` looks for: the request plus a header, aligned. */
  function InternalSize(size: nat): (s: nat)
    requires size < HEAP_LIMIT
    ensures s % 8 == 0 && size + HEADER_BYTES <= s < size + HEADER_BYTES + 8
  {
    Align(size + NODE_MEMORY_BLOCK_SIZE * 8)
  }

  /** The data pointer of a block whose header is at `address`
      (`address.offset(NODE_MEMORY_BLOCK_SIZE)`). */
  function DataPointer(address: int): (dp: int)
    ensures dp == address + HEADER_BYTES && dp % 8 == address % 8
  {
    address + NODE_MEMORY_BLOCK_SIZE * 8
  }

  /** `get_header_address`: the header sits NODE_MEMORY_BLOCK_SIZE words below
      the data pointer. */
  function GetHeaderAddress(dp: int): (h: int)
    ensures DataPointer(h) == dp
  {
    dp - NODE_MEMORY_BLOCK_SIZE * 8
  }

  lemma HeaderOfDataPointer(address: int)
    ensures GetHeaderAddress(DataPointer(address)) == address
  {
  }

  /** `find_first_fit`: the least index whose block is strictly larger than
      `size`, or None when every block is at most `size`. */
  function FirstFit(fl: seq<FreeNode>, size: nat): (r: Option<nat>)
    ensures r.Some? ==> r.value < |fl| && fl[r.value].block.size > size
    ensures r.Some? ==> forall j :: 0 <= j < r.value ==> fl[j].block.size <= size
    ensures r.None? <==> forall j :: 0 <= j < |fl| ==> fl[j].block.size <= size
  {
    if fl == [] then None
    else if fl[0].block.size > size then Some(0)
    else match FirstFit(fl[1..], size)
      case None => None
      case Some(i) => Some(i + 1)
  }

  /** The least fitting index is unique, so any index with the first-fit
      property is the one `FirstFit` finds. */
  lemma FirstFitIsUnique(fl: seq<FreeNode>, size: nat, i: nat)
    requires i < |fl| && fl[i].block.size > size
    requires forall j :: 0 <= j < i ==> fl[j].block.size <= size
    ensures FirstFit(fl, size) == Some(i)
  {
  }

  /** Appending to a list in which nothing fits: only the new block can fit. */
  lemma FirstFitAfterAppend(fl: seq<FreeNode>, x: FreeNode, size: nat)
    requires FirstFit(fl, size).None?
    ensures FirstFit(fl + [x], size) == if x.block.size > size then Some(|fl|) else None
  {
    var l := fl + [x];
    assert forall j :: 0 <= j < |fl| ==> l[j] == fl[j];
    if x.block.size > size {
      FirstFitIsUnique(l, size, |fl|);
    }
  }

  function RemoveAt(fl: seq<FreeNode>, i: nat): (r: seq<FreeNode>)
    requires i < |fl|
    ensures |r| == |fl| - 1
    ensures forall j :: 0 <= j < i ==> r[j] == fl[j]
    ensures forall j :: i <= j < |r| ==> r[j] == fl[j + 1]
  {
    fl[..i] + fl[i + 1..]
  }

  /** The free block `create_new_memory_block(size, address, true)` pushes: its
      list node is placed at the data pointer. */
  function NewFreeBlock(size: nat, address: int): (r: FreeNode)
    ensures r.block.size == size && r.addr == r.block.data
    ensures GetHeaderAddress(r.block.data) == address
  {
    FreeNode(MemoryBlock(size, DataPointer(address)), DataPointer(address))
  }

  /** The remainder a hit leaves: its header address is the data pointer of
      the chosen block plus the internal size. */
  function Remainder(b: MemoryBlock, s: nat): (r: FreeNode)
    requires s < b.size
    ensures 0 < r.block.size == b.size - s
    ensures r.block.data == b.data + s + HEADER_BYTES
  {
    NewFreeBlock(b.size - s, b.data + s)
  }

  /** Pages `kmalloc` asks for on a miss: `get_number_of_pages(round_to_nearest_page(s))`. */
  function PagesFor(s: nat): (p: nat)
    requires s < HEAP_LIMIT
    ensures s <= p * PAGE_SIZE < s + PAGE_SIZE
    ensures p * PAGE_SIZE == RoundToNearestPage(s)
  {
    PagesOfRoundedSize(s);
    GetNumberOfPages(RoundToNearestPage(s))
  }

  /** `extend_memory_region(pages)`: one free block of `pages` pages at the run
      `alloc_page_frames` returns, with the watermark's usize arithmetic. */
  function Extend(st: HeapState, pages: nat): (r: HeapState)
    ensures r.freeList == st.freeList + [NewFreeBlock(pages * PAGE_SIZE, (st.currentPage + PAGE_SIZE) % USIZE_MODULUS)]
    ensures r.currentPage == (st.currentPage + pages * PAGE_SIZE) % USIZE_MODULUS
  {
    HeapState(st.freeList + [NewFreeBlock(pages * PAGE_SIZE, (st.currentPage + PAGE_SIZE) % USIZE_MODULUS)],
              (st.currentPage + pages * PAGE_SIZE) % USIZE_MODULUS)
  }

  /** Extensions a miss on internal size `s` leads to when nothing already on
      the list fits: each retry looks for 48 bytes more than the last. */
  function Retries(s: nat): (n: nat)
    requires s < HEAP_LIMIT
    ensures 1 <= n <= 3
  {
    if RoundToNearestPage(s) > s + HEADER_BYTES then 1
    else if RoundToNearestPage(s + HEADER_BYTES) > s + 2 * HEADER_BYTES then 2
    else 3
  }

  /** Two rounded sizes too small in a row force the third to fit. */
  lemma ThirdExtensionFits(s: nat)
    requires s < HEAP_LIMIT
    requires RoundToNearestPage(s) <= s + HEADER_BYTES
    requires RoundToNearestPage(s + HEADER_BYTES) <= s + 2 * HEADER_BYTES
    ensures RoundToNearestPage(s + 2 * HEADER_BYTES) > s + 3 * HEADER_BYTES
  {
    var a := RoundToNearestPage(s);
    var b := RoundToNearestPage(s + HEADER_BYTES);
    RoundIsLeastPageMultiple(s, b);
    assert b == a;
    var c := RoundToNearestPage(s + 2 * HEADER_BYTES);
    assert c >= s + 2 * HEADER_BYTES;
    assert c != a;
    RoundIsLeastPageMultiple(s, c);
    assert c >= a + PAGE_SIZE;
  }

  /** How many more extensions `kmalloc(size)` needs from this free list. */
  function Measure(fl: seq<FreeNode>, size: nat): (n: nat)
    requires size + 64 < HEAP_LIMIT
    ensures n <= 3
  {
    if FirstFit(fl, InternalSize(size)).Some? then 0 else Retries(InternalSize(size))
  }

  /** Requests far enough below HEAP_LIMIT that every retry stays below it. */
  predicate InRange(fl: seq<FreeNode>, size: nat)
  {
    size + 64 < HEAP_LIMIT && size + 64 * (Measure(fl, size) + 1) < HEAP_LIMIT
  }

  lemma SmallRequestsAreInRange(fl: seq<FreeNode>, size: nat)
    requires size < 0x4000_0000_0000_0000
    ensures InRange(fl, size)
  {
  }

  /** The outcome of `kmalloc`: the new state, the data pointer, the size
      written into the used block's header, and the page count of every
      extension on the way. */
  datatype Allocation = Allocation(after: HeapState, dp: int, blockSize: nat, extensions: seq<nat>)

  /** `kmalloc(size)`. On a hit the chosen block is removed and the remainder
      pushed at the tail; on a miss the region is extended and `kmalloc` is
      called again with the already enlarged size. */
  function Malloc(st: HeapState, size: nat): (a: Allocation)
    requires InRange(st.freeList, size)
    ensures |a.extensions| <= Measure(st.freeList, size)
    ensures a.blockSize == InternalSize(size) + HEADER_BYTES * |a.extensions|
    ensures |a.after.freeList| == |st.freeList| + |a.extensions|
    ensures |a.extensions| == 0 <==> FirstFit(st.freeList, InternalSize(size)).Some?
    decreases Measure(st.freeList, size)
  {
    var s := InternalSize(size);
    match FirstFit(st.freeList, s)
    case Some(i) =>
      var b := st.freeList[i].block;
      Allocation(HeapState(RemoveAt(st.freeList, i) + [Remainder(b, s)], st.currentPage), b.data, s, [])
    case None =>
      var p := PagesFor(s);
      var next := Extend(st, p);
      MissStep(st.freeList, size, next.freeList[|st.freeList|]);
      var r := Malloc(next, s);
      Allocation(r.after, r.dp, r.blockSize, [p] + r.extensions)
  }

  /** After a miss and one extension the retry needs strictly fewer extensions. */
  lemma MissStep(fl: seq<FreeNode>, size: nat, x: FreeNode)
    requires InRange(fl, size)
    requires FirstFit(fl, InternalSize(size)).None?
    requires x.block.size == RoundToNearestPage(InternalSize(size))
    ensures InternalSize(InternalSize(size)) == InternalSize(size) + HEADER_BYTES
    ensures InRange(fl + [x], InternalSize(size))
    ensures Measure(fl + [x], InternalSize(size)) < Measure(fl, size)
  {
    var s := InternalSize(size);
    var t := s + HEADER_BYTES;
    AlignKeepsAligned(t);
    assert InternalSize(s) == t;
    var m := Measure(fl, size);
    assert m == Retries(s);
    assert FirstFit(fl, t).None?;
    FirstFitAfterAppend(fl, x, t);
    var m' := Measure(fl + [x], s);
    if x.block.size > t {
      assert m' == 0;
    } else {
      assert m' == Retries(t);
      RetriesDecrease(s);
    }
    assert s + 64 * (m' + 1) <= size + 64 * (m + 1);
  }

  /** A first extension too small for the retry leaves the retry fewer
      extensions to make. */
  lemma RetriesDecrease(s: nat)
    requires s + 4 * HEADER_BYTES < HEAP_LIMIT
    requires RoundToNearestPage(s) <= s + HEADER_BYTES
    ensures Retries(s + HEADER_BYTES) < Retries(s)
  {
    if Retries(s) == 3 {
      ThirdExtensionFits(s);
    }
  }

  /** `kfree` pushes the block described by the header at `h` to the tail. */
  function Free(st: HeapState, header: MemoryBlock, h: int): (r: HeapState)
    ensures r.freeList == st.freeList + [FreeNode(header, h)] && r.currentPage == st.currentPage
    ensures |r.freeList| == |st.freeList| + 1
  {
    HeapState(st.freeList + [FreeNode(header, h)], st.currentPage)
  }

  /** A hit keeps the free-list length: one block out, its remainder in. The
      used block starts at the chosen block's header and the remainder's
      header lies `s` bytes above the chosen data pointer. */
  lemma HitReplacesChosenBlock(st: HeapState, size: nat)
    requires InRange(st.freeList, size)
    requires FirstFit(st.freeList, InternalSize(size)).Some?
    ensures var i := FirstFit(st.freeList, InternalSize(size)).value;
            var b := st.freeList[i].block;
            var a := Malloc(st, size);
            && a.dp == b.data
            && a.after == HeapState(RemoveAt(st.freeList, i) + [Remainder(b, InternalSize(size))], st.currentPage)
            && a.blockSize == InternalSize(size)
  {
  }

  /** The remainder overruns: the chosen block covers the bytes
      [data - 48, data - 48 + size) but the used part and the remainder
      together cover [data - 48, data + size), 48 bytes more. */
  lemma RemainderOverrunsBlock(b: MemoryBlock, s: nat)
    requires s < b.size
    ensures GetHeaderAddress(Remainder(b, s).block.data) + Remainder(b, s).block.size
            == GetHeaderAddress(b.data) + b.size + HEADER_BYTES
  {
  }

  /** A miss extends the region by `PagesFor` of the internal size and retries
      with the internal size as the request. */
  lemma MissUnfolds(st: HeapState, size: nat)
    requires InRange(st.freeList, size)
    requires FirstFit(st.freeList, InternalSize(size)).None?
    ensures var s := InternalSize(size);
            var next := Extend(st, PagesFor(s));
            && InRange(next.freeList, s)
            && Measure(next.freeList, s) < Measure(st.freeList, size)
            && Malloc(st, size).extensions == [PagesFor(s)] + Malloc(next, s).extensions
            && Malloc(st, size).dp == Malloc(next, s).dp
            && Malloc(st, size).after == Malloc(next, s).after
            && Malloc(st, size).blockSize == Malloc(next, s).blockSize
  {
    var s := InternalSize(size);
    var next := Extend(st, PagesFor(s));
    MissStep(st.freeList, size, next.freeList[|st.freeList|]);
  }

  /** A miss whose internal size is a multiple of the page size is never
      satisfied by the first extension: that block is exactly the size that
      the retry's strict comparison rejects, so two extensions are made. */
  lemma PageMultipleNeedsTwoExtensions(st: HeapState, size: nat)
    requires InRange(st.freeList, size)
    requires InternalSize(size) % PAGE_SIZE == 0
    requires FirstFit(st.freeList, InternalSize(size)).None?
    ensures |Malloc(st, size).extensions| == 2
  {
    var s := InternalSize(size);
    var t := s + HEADER_BYTES;
    var next := Extend(st, PagesFor(s));
    MissUnfolds(st, size);
    assert InternalSize(s) == t;
    assert next.freeList[|st.freeList|].block.size == s by {
      RoundOfPageMultiple(s);
    }
    assert FirstFit(next.freeList, t).None? by {
      FirstFitAfterAppend(st.freeList, next.freeList[|st.freeList|], s);
      FirstFitAfterAppend(st.freeList, next.freeList[|st.freeList|], t);
    }
    SecondExtensionFits(next, s);
  }

  /** The retry for a page-multiple request that missed: its one extension
      is a page larger than the request and is taken. */
  lemma SecondExtensionFits(st: HeapState, s: nat)
    requires InRange(st.freeList, s)
    requires s % PAGE_SIZE == 0 && InternalSize(s) == s + HEADER_BYTES
    requires FirstFit(st.freeList, InternalSize(s)).None?
    ensures |Malloc(st, s).extensions| == 1
  {
    MissUnfolds(st, s);
    RetryHits(st, s);
  }

  /** The block the first extension adds for a page multiple `s` is larger
      than the retry's internal size, and nothing before it fits. */
  lemma RetryHits(st: HeapState, s: nat)
    requires InRange(st.freeList, s)
    requires s % PAGE_SIZE == 0 && InternalSize(s) == s + HEADER_BYTES
    requires FirstFit(st.freeList, InternalSize(s)).None?
    ensures var t := InternalSize(s);
            FirstFit(Extend(st, PagesFor(t)).freeList, InternalSize(t)) == Some(|st.freeList|)
  {
    var t := InternalSize(s);
    RetryBlockOfPageMultiple(s);
    var p := PagesFor(t);
    var x := NewFreeBlock(p * PAGE_SIZE, (st.currentPage + PAGE_SIZE) % USIZE_MODULUS);
    FirstFitAfterAppend(st.freeList, x, InternalSize(t));
  }

  /** For a page multiple `s`, the retry asks for `s + 48` bytes: one page
      more than `s`, and a block whose internal size fits in it. */
  lemma RetryBlockOfPageMultiple(s: nat)
    requires s % PAGE_SIZE == 0 && s + 64 < HEAP_LIMIT
    ensures PagesFor(s + HEADER_BYTES) * PAGE_SIZE == s + PAGE_SIZE
    ensures InternalSize(s + HEADER_BYTES) == s + 2 * HEADER_BYTES
  {
    assert PagesFor(s + HEADER_BYTES) * PAGE_SIZE == s + PAGE_SIZE by {
      RoundJustAbovePageMultiple(s, HEADER_BYTES);
    }
    assert InternalSize(s + HEADER_BYTES) == s + 2 * HEADER_BYTES by {
      assert (s + 2 * HEADER_BYTES) % 8 == 0;
      AlignKeepsAligned(s + 2 * HEADER_BYTES);
    }
  }

  /** `kmalloc(4048)` on an empty list: the internal size 4096 is a whole page,
      so the first one-page block is rejected and a second is added. */
  lemma KmallocWholePageScenario(cur: int)
    ensures Malloc(HeapState([], cur), 4048).extensions == [1, 2]
  {
    var st := HeapState([], cur);
    assert InternalSize(4048) == 4096;
    MissUnfolds(st, 4048);
    assert PagesFor(4096) == 1;
    var next := Extend(st, 1);
    assert InternalSize(4096) == 4144;
    assert FirstFit(next.freeList, 4144) == None;
    MissUnfolds(next, 4096);
    assert PagesFor(4144) == 2;
    var next2 := Extend(next, 2);
    assert InternalSize(4144) == 4192;
    assert FirstFit(next2.freeList, 4192) == Some(1);
  }

  /** `kmalloc(5000)` on an empty list extends once, by two pages. */
  lemma KmallocTwoPageScenario(cur: int)
    ensures var a := Malloc(HeapState([], cur), 5000);
            a.extensions == [2] && a.dp == (cur + PAGE_SIZE) % USIZE_MODULUS + HEADER_BYTES && a.blockSize == 5096
  {
    var st := HeapState([], cur);
    assert InternalSize(5000) == 5048;
    MissUnfolds(st, 5000);
    assert PagesFor(5048) == 2;
    var next := Extend(st, 2);
    assert InternalSize(5048) == 5096;
    assert FirstFit(next.freeList, 5096) == Some(0);
  }

  /** The heap state `now`, the pointer `dp` and the memory `after` are those
      of `kmalloc(size)` from `st` and `before`: the state and pointer of
      `Malloc`, and the used block's header written just below `dp`. */
  predicate MallocTook(st: HeapState, size: nat, now: HeapState, dp: int, before: map<int, int>, after: map<int, int>)
    requires InRange(st.freeList, size)
  {
    var a := Malloc(st, size);
    && now == a.after && dp == a.dp
    && after == before[GetHeaderAddress(dp) := a.blockSize][GetHeaderAddress(dp) + 8 := dp]
  }

  class KernelHeap {
    /** FREE_MEMORY_BLOCK_LIST, read as a sequence of entries head to tail. */
    var freeMemoryBlockList: seq<FreeNode>
    var pfa: PageFrameAllocator
    var mem: Memory

    ghost predicate Valid()
      reads this, pfa
    {
      pfa.Valid()
    }

    function State(): HeapState
      reads this, pfa
    {
      HeapState(freeMemoryBlockList, pfa.currentPage)
    }

    constructor (frames: PageFrameAllocator, memory: Memory)
      ensures freeMemoryBlockList == [] && pfa == frames && mem == memory
    {
      freeMemoryBlockList := [];
      pfa := frames;
      mem := memory;
    }

    /** `find_first_fit`: walks the list from the head and stops at the first
        block strictly larger than `size`; `(0, None)` when there is none. */
    method FindFirstFit(size: nat) returns (index: nat, block: Option<MemoryBlock>)
      ensures block.Some? ==> index < |freeMemoryBlockList| && block.value == freeMemoryBlockList[index].block
      ensures block.Some? ==> block.value.size > size
      ensures block.Some? ==> forall j :: 0 <= j < index ==> freeMemoryBlockList[j].block.size <= size
      ensures block.None? ==> index == 0 && forall j :: 0 <= j < |freeMemoryBlockList| ==> freeMemoryBlockList[j].block.size <= size
      ensures block.None? <==> FirstFit(freeMemoryBlockList, size).None?
      ensures block.Some? ==> FirstFit(freeMemoryBlockList, size) == Some(index)
    {
      var i := 0;
      while i < |freeMemoryBlockList|
        invariant 0 <= i <= |freeMemoryBlockList|
        invariant forall j :: 0 <= j < i ==> freeMemoryBlockList[j].block.size <= size
      {
        if freeMemoryBlockList[i].block.size > size {
          FirstFitIsUnique(freeMemoryBlockList, size, i);
          return i, Some(freeMemoryBlockList[i].block);
        }
        i := i + 1;
      }
      index, block := 0, None;
    }

    /** `create_new_memory_block`: a free block is pushed to the tail of the
        list with its node at the data pointer; a used block gets its header
        (size, data pointer) written at `address`. */
    method CreateNewMemoryBlock(size: nat, address: int, isFree: bool) returns (dp: int)
      modifies this`freeMemoryBlockList, mem`words
      ensures dp == DataPointer(address)
      ensures isFree ==> freeMemoryBlockList == old(freeMemoryBlockList) + [NewFreeBlock(size, address)]
                         && mem.words == old(mem.words)
      ensures !isFree ==> freeMemoryBlockList == old(freeMemoryBlockList)
                          && mem.words == old(mem.words)[address := size][address + 8 := dp]
    {
      dp := DataPointer(address);
      var block := MemoryBlock(size, dp);
      if isFree {
        freeMemoryBlockList := freeMemoryBlockList + [FreeNode(block, dp)];
      } else {
        mem.words := mem.words[address := block.size][address + 8 := block.data];
      }
    }

    /** `extend_memory_region`: `pages` fresh frames become one free block. */
    method ExtendMemoryRegion(pages: nat)
      requires Valid()
      modifies this`freeMemoryBlockList, pfa`currentPage, pfa`Issued, pfa`Wrapped, mem`words
      ensures Valid() && mem.words == old(mem.words)
      ensures State() == Extend(old(State()), pages)
    {
      var address := pfa.AllocPageFrames(pages);
      var size := pages * PAGE_SIZE;
      var _ := CreateNewMemoryBlock(size, address, true);
    }

    /** The hit branch of `kmalloc`: the chosen block leaves the list, the
        used block's header is written at the chosen block's header, and the
        remainder goes to the tail. */
    method SplitBlock(size: nat, s: nat, index: nat, memoryBlock: MemoryBlock) returns (dp: int)
      requires InRange(freeMemoryBlockList, size) && s == InternalSize(size)
      requires FirstFit(freeMemoryBlockList, s) == Some(index) && freeMemoryBlockList[index].block == memoryBlock
      modifies this`freeMemoryBlockList, mem`words
      ensures MallocTook(old(State()), size, State(), dp, old(mem.words), mem.words)
    {
      HitReplacesChosenBlock(State(), size);
      freeMemoryBlockList := RemoveAt(freeMemoryBlockList, index);
      var address := GetHeaderAddress(memoryBlock.data);
      dp := CreateNewMemoryBlock(s, address, false);
      address := address + (NODE_MEMORY_BLOCK_SIZE + s / 8) * 8;
      assert address == memoryBlock.data + s;
      var _ := CreateNewMemoryBlock(memoryBlock.size - s, address, true);
    }

    /** `kmalloc`: the new state and the pointer are those of `Malloc`, and the
        used block's header (its size and data pointer) is written just below
        the returned pointer. */
    method KMalloc(size: nat) returns (dp: int)
      requires Valid()
      requires InRange(freeMemoryBlockList, size)
      modifies this`freeMemoryBlockList, pfa`currentPage, pfa`Issued, pfa`Wrapped, mem`words
      ensures Valid()
      ensures MallocTook(old(State()), size, State(), dp, old(mem.words), mem.words)
      decreases Measure(freeMemoryBlockList, size), 1
    {
      ghost var st := State();
      var s := size + NODE_MEMORY_BLOCK_SIZE * 8;
      s := Align(s);
      assert s == InternalSize(size);
      var index, wrapped := FindFirstFit(s);
      match wrapped
      case Some(memoryBlock) =>
        if memoryBlock.size > s {
          dp := SplitBlock(size, s, index, memoryBlock);
        } else {
          assert false;
        }
      case None =>
        dp := ExtendAndRetry(size, s);
    }

    /** The miss branch of `kmalloc(size)`: the region grows by the pages of
        the internal size `s`, and `kmalloc(s)` is called again. */
    method ExtendAndRetry(size: nat, s: nat) returns (dp: int)
      requires Valid()
      requires InRange(freeMemoryBlockList, size) && s == InternalSize(size)
      requires FirstFit(freeMemoryBlockList, s).None?
      modifies this`freeMemoryBlockList, pfa`currentPage, pfa`Issued, pfa`Wrapped, mem`words
      ensures Valid()
      ensures MallocTook(old(State()), size, State(), dp, old(mem.words), mem.words)
      decreases Measure(freeMemoryBlockList, size), 0
    {
      ghost var st := State();
      var pages := GetNumberOfPages(RoundToNearestPage(s));
      assert pages == PagesFor(s);
      ExtendMemoryRegion(pages);
      MissUnfolds(st, size);
      dp := KMalloc(s);
    }

    /** `kfree`: the header below `dp` is read back as a block and pushed to
        the tail of the free list, with its node at the header. Memory is not
        cleared and no neighbour is merged. */
    method KFree(dp: int)
      requires GetHeaderAddress(dp) in mem.words && GetHeaderAddress(dp) + 8 in mem.words
      requires mem.words[GetHeaderAddress(dp)] >= 0
      modifies this`freeMemoryBlockList
      ensures var h := GetHeaderAddress(dp);
              State() == Free(old(State()), MemoryBlock(mem.words[h], mem.words[h + 8]), h)
    {
      var headerAddress := GetHeaderAddress(dp);
      var payload := MemoryBlock(mem.words[headerAddress], mem.words[headerAddress + 8]);
      freeMemoryBlockList := freeMemoryBlockList + [FreeNode(payload, headerAddress)];
    }
  }

  /** `kfree` hands back exactly the block `kmalloc` wrote: freeing the pointer
      of an allocation pushes a block of the allocation's size whose data
      pointer is that pointer. */
  lemma FreeAfterMallocReturnsTheBlock(st: HeapState, words: map<int, int>, size: nat)
    requires InRange(st.freeList, size)
    ensures var a := Malloc(st, size);
            var h := GetHeaderAddress(a.dp);
            var w := words[h := a.blockSize][h + 8 := a.dp];
            Free(a.after, MemoryBlock(w[h], w[h + 8]), h).freeList
              == a.after.freeList + [FreeNode(MemoryBlock(a.blockSize, a.dp), h)]
  {
  }

  /** `kmalloc(100)`, `kfree` of its pointer, then `kmalloc(100)` again on an
      empty list: the second call takes the remainder at the head of the list
      rather than the block just freed, so the pointers differ. */
  lemma ReallocationScenario(cur: int)
    ensures var a1 := Malloc(HeapState([], cur), 100);
            var h := GetHeaderAddress(a1.dp);
            var st := Free(a1.after, MemoryBlock(a1.blockSize, a1.dp), h);
            var a2 := Malloc(st, 100);
            && a1.dp == (cur + PAGE_SIZE) % USIZE_MODULUS + HEADER_BYTES
            && a2.dp == (cur + PAGE_SIZE) % USIZE_MODULUS + 296
            && a1.dp != a2.dp
  {
    var st0 := HeapState([], cur);
    assert InternalSize(100) == 152;
    MissUnfolds(st0, 100);
    assert PagesFor(152) == 1;
    var next := Extend(st0, 1);
    assert InternalSize(152) == 200;
    assert FirstFit(next.freeList, 200) == Some(0);
    var a1 := Malloc(st0, 100);
    assert a1.dp == (cur + PAGE_SIZE) % USIZE_MODULUS + HEADER_BYTES;
    assert a1.after.freeList == [Remainder(next.freeList[0].block, 200)];
    var st := Free(a1.after, MemoryBlock(a1.blockSize, a1.dp), GetHeaderAddress(a1.dp));
    assert st.freeList[0].block.size == 3896;
    assert FirstFit(st.freeList, 152) == Some(0);
    SmallRequestsAreInRange(st.freeList, 100);
  }
}
