/** The physical page-frame allocator (kernel/src/memory/page_frame_allocator.rs):
    a bump watermark `current_page` over page-rounded usable memory, which
    wraps at 2^64 as a usize does, plus an intrusive stack of freed frames
    whose links live in the frames themselves, in physical memory. */
module PageFrames {
  import opened Wrappers
  import opened PhysicalMemory

  const PAGE_SIZE: nat := 4096
  const WORDS_PER_PAGE: nat := 512
  const USIZE_MODULUS: nat := 0x1_0000_0000_0000_0000

  /** `round_to_nearest_page`: `(size as i64 + 4095) & -4096` read back as a
      usize. The sum wraps to a value below 4095 exactly when `size + 4095`
      reaches 2^64, and masking that leaves 0. */
  function RoundToNearestPage(size: nat): (r: nat)
    requires size < USIZE_MODULUS
    ensures r < USIZE_MODULUS && r % PAGE_SIZE == 0
    ensures size + 4095 < USIZE_MODULUS ==> size <= r < size + PAGE_SIZE
    ensures size + 4095 >= USIZE_MODULUS ==> r == 0
  {
    if size + 4095 < USIZE_MODULUS then (size + 4095) - (size + 4095) % PAGE_SIZE else 0
  }

  /** The rounding is the wrapping sum with its low twelve bits cleared. */
  lemma RoundIsWrappingMask(size: nat)
    requires size < USIZE_MODULUS
    ensures var sum := (size + 4095) % USIZE_MODULUS;
            RoundToNearestPage(size) == sum - sum % PAGE_SIZE
  {
  }

  /** No multiple of the page size at or above `size` is smaller than the rounding. */
  lemma RoundIsLeastPageMultiple(size: nat, m: nat)
    requires size + 4095 < USIZE_MODULUS
    requires m % PAGE_SIZE == 0 && size <= m
    ensures RoundToNearestPage(size) <= m
  {
  }

  lemma RoundIsIdempotent(size: nat)
    requires size + 4095 < USIZE_MODULUS
    ensures RoundToNearestPage(RoundToNearestPage(size)) == RoundToNearestPage(size)
  {
  }

  lemma RoundOfPageMultiple(size: nat)
    requires size + 4095 < USIZE_MODULUS && size % PAGE_SIZE == 0
    ensures RoundToNearestPage(size) == size
  {
  }

  lemma RoundJustAbovePageMultiple(size: nat, extra: nat)
    requires size + PAGE_SIZE + 4095 < USIZE_MODULUS && size % PAGE_SIZE == 0
    requires 0 < extra <= PAGE_SIZE
    ensures RoundToNearestPage(size + extra) == size + PAGE_SIZE
  {
    RoundIsLeastPageMultiple(size + extra, size + PAGE_SIZE);
  }

  /** `get_number_of_pages`: whole pages in `size` bytes, rounding down. */
  function GetNumberOfPages(size: nat): (n: nat)
    ensures n * PAGE_SIZE <= size < (n + 1) * PAGE_SIZE
  {
    size / PAGE_SIZE
  }

  /** Rounding first and then counting pages gives a page count that covers the
      size exactly in whole pages. */
  lemma PagesOfRoundedSize(size: nat)
    requires size + 4095 < USIZE_MODULUS
    ensures GetNumberOfPages(RoundToNearestPage(size)) * PAGE_SIZE == RoundToNearestPage(size)
    ensures size <= GetNumberOfPages(RoundToNearestPage(size)) * PAGE_SIZE < size + PAGE_SIZE
  {
    var r := RoundToNearestPage(size);
    assert r == (r / PAGE_SIZE) * PAGE_SIZE;
  }

  /** The link of the frame at position `i` of a stack listed top first. */
  function Link(frames: seq<int>, i: nat): Option<int>
  {
    if i < |frames| then Some(frames[i]) else None
  }

  // ---------------------------------------------------------------------
  // The `next` field of a frame: an `Option<*mut PageFrame>` in memory
  // ---------------------------------------------------------------------

  /** A raw pointer has no niche, so `Option<*mut PageFrame>` takes two words:
      a tag word at `a` (0 for None, 1 for Some) and, for Some, the pointer in
      the word at `a + 8`. */
  predicate LinkReadable(m: map<int, int>, a: int)
  {
    a in m && (m[a] != 0 ==> a + 8 in m)
  }

  function ReadLink(m: map<int, int>, a: int): Option<int>
    requires LinkReadable(m, a)
  {
    if m[a] == 0 then None else Some(m[a + 8])
  }

  /** Storing a link writes its tag and, for Some, its pointer; it reads back
      as stored. */
  function WriteLink(m: map<int, int>, a: int, link: Option<int>): (r: map<int, int>)
    ensures a in r && r[a] == (if link.None? then 0 else 1)
    ensures link.Some? ==> a + 8 in r && r[a + 8] == link.value
    ensures LinkReadable(r, a) && ReadLink(r, a) == link
  {
    match link
    case None => m[a := 0]
    case Some(p) => m[a := 1][a + 8 := p]
  }

  /** Storing a link changes no word but its own two. */
  lemma WriteLinkKeeps(m: map<int, int>, a: int, link: Option<int>, x: int)
    requires x in m && x != a && (link.Some? ==> x != a + 8)
    ensures x in WriteLink(m, a, link) && WriteLink(m, a, link)[x] == m[x]
  {
  }

  /** Storing a link keeps every link it does not overlap. */
  lemma WriteLinkKeepsApart(m: map<int, int>, a: int, link: Option<int>, b: int)
    requires LinkReadable(m, b) && Apart(a, b)
    ensures LinkReadable(WriteLink(m, a, link), b) && ReadLink(WriteLink(m, a, link), b) == ReadLink(m, b)
  {
    WriteLinkKeeps(m, a, link, b);
    if m[b] != 0 {
      WriteLinkKeeps(m, a, link, b + 8);
    }
  }

  /** The two-word links at `a` and `b` do not overlap. */
  predicate Apart(a: int, b: int)
  {
    a + 16 <= b || b + 16 <= a
  }

  predicate ApartFromAll(a: int, frames: seq<int>)
  {
    forall i :: 0 <= i < |frames| ==> Apart(a, frames[i])
  }

  /** `FreeStack`: the top frame and a length counter. Each frame's `next`
      lives in memory at the frame's own address. */
  class FreeStack {
    var top: Option<int>
    var length: nat
    /** The frames pushed and not yet popped, most recently pushed first. */
    ghost var Frames: seq<int>

    /** The counter is at least the number of frames on the stack. */
    ghost predicate Counted()
      reads this
    {
      |Frames| <= length
    }

    /** In memory `m` the frames form the chain from `top`: each frame's link
        names the frame below it, and no two links overlap. */
    ghost predicate Valid(m: map<int, int>)
      reads this
    {
      && Counted()
      && top == Link(Frames, 0)
      && (forall i, j :: 0 <= i < j < |Frames| ==> Apart(Frames[i], Frames[j]))
      && (forall i :: 0 <= i < |Frames| ==>
            LinkReadable(m, Frames[i]) && ReadLink(m, Frames[i]) == Link(Frames, i + 1))
    }

    /** `initalise`: no top frame and a zero length. */
    constructor ()
      ensures Frames == [] && top == None && length == 0
      ensures forall m :: Valid(m)
    {
      top := None;
      length := 0;
      Frames := [];
    }

    /** `is_empty` consults only the counter; a zero counter does mean that no
        frame is on the stack, but pops never lower it (see `Pop`). */
    predicate IsEmpty(): (r: bool)
      reads this
      ensures r && Counted() ==> Frames == []
    {
      length == 0
    }

    /** `push`: the node's `next` in memory becomes the old top, the node
        becomes the top, and the counter goes up by one. The chain stays intact
        when the node's link overlaps no other link. */
    method Push(node: int, mem: Memory)
      modifies this, mem`words
      ensures mem.words == WriteLink(old(mem.words), node, old(top))
      ensures top == Some(node) && length == old(length) + 1 && Frames == [node] + old(Frames)
      ensures old(Valid(mem.words)) && ApartFromAll(node, old(Frames)) ==> Valid(mem.words)
    {
      ghost var keeps := Valid(mem.words) && ApartFromAll(node, Frames);
      ghost var m0 := mem.words;
      mem.words := WriteLink(mem.words, node, top);
      top := Some(node);
      length := length + 1;
      Frames := [node] + Frames;
      if keeps {
        forall i | 1 <= i < |Frames|
          ensures LinkReadable(mem.words, Frames[i]) && ReadLink(mem.words, Frames[i]) == Link(Frames, i + 1)
        {
          assert Frames[i] == old(Frames)[i - 1] && Apart(node, Frames[i]);
          assert Link(Frames, i + 1) == Link(old(Frames), i);
          WriteLinkKeepsApart(m0, node, old(top), Frames[i]);
        }
      }
    }

    /** `pop`: with no count, None; with a count of one, the top, which is then
        cleared; otherwise the top, replaced by the `next` read from its frame.
        The counter is never lowered. On an intact chain the most recently
        pushed frame comes off. */
    method Pop(mem: Memory) returns (frame: Option<int>)
      requires length >= 2 && top.Some? ==> LinkReadable(mem.words, top.value)
      modifies this
      ensures length == old(length)
      ensures frame == if length == 0 then None else old(top)
      ensures length == 0 ==> top == old(top)
      ensures length == 1 ==> top == None
      ensures length >= 2 ==> top == if old(top).None? then None else ReadLink(mem.words, old(top).value)
      ensures old(Valid(mem.words)) ==>
                Valid(mem.words) && frame == Link(old(Frames), 0)
                && Frames == if old(Frames) == [] then [] else old(Frames)[1..]
    {
      if length == 0 {
        frame := None;
      } else if length == 1 {
        frame := top;
        top := None;
        Frames := if Frames == [] then [] else Frames[1..];
      } else {
        match top
        case Some(t) =>
          top := ReadLink(mem.words, t);
          frame := Some(t);
          Frames := if Frames == [] then [] else Frames[1..];
        case None =>
          frame := None;
      }
    }
  }

  /** After one push and one pop the stack holds no frame, yet `is_empty`
      answers false. */
  method PopKeepsLength() returns (s: FreeStack)
    ensures s.Counted() && s.Frames == [] && !s.IsEmpty()
  {
    s := new FreeStack();
    var mem := new Memory();
    s.Push(0x20_0000, mem);
    var f := s.Pop(mem);
    assert f == Some(0x20_0000);
  }

  // ---------------------------------------------------------------------
  // Freeing frames
  // ---------------------------------------------------------------------

  /** The memory after `free_page_frame(a)` with `top` on the stack: the 512
      words of the page zeroed, then the link at `a` set to `top`. */
  function FreeOne(m: map<int, int>, a: int, top: Option<int>): map<int, int>
  {
    WriteLink(Zeroed(m, a, WORDS_PER_PAGE), a, top)
  }

  /** No link of any frame on the stack lies in the page at `a`. */
  predicate PageClear(a: int, frames: seq<int>)
  {
    forall i :: 0 <= i < |frames| ==> frames[i] + 16 <= a || a + PAGE_SIZE <= frames[i]
  }

  /** Zeroing a page holding no link keeps the chain. */
  lemma ZeroingKeepsClearLinks(s: FreeStack, m: map<int, int>, a: int)
    requires s.Valid(m) && PageClear(a, s.Frames)
    ensures s.Valid(Zeroed(m, a, WORDS_PER_PAGE)) && ApartFromAll(a, s.Frames)
  {
    forall i | 0 <= i < |s.Frames|
      ensures LinkReadable(Zeroed(m, a, WORDS_PER_PAGE), s.Frames[i])
              && ReadLink(Zeroed(m, a, WORDS_PER_PAGE), s.Frames[i]) == Link(s.Frames, i + 1)
    {
      ZeroedAt(m, a, WORDS_PER_PAGE, s.Frames[i]);
      ZeroedAt(m, a, WORDS_PER_PAGE, s.Frames[i] + 8);
    }
  }

  /** Freeing the page at `a` keeps every word below `a`. */
  lemma FreeOneKeepsBelow(m: map<int, int>, a: int, top: Option<int>, x: int)
    requires x < a && x in m
    ensures x in FreeOne(m, a, top) && FreeOne(m, a, top)[x] == m[x]
  {
    ZeroedAt(m, a, WORDS_PER_PAGE, x);
    WriteLinkKeeps(Zeroed(m, a, WORDS_PER_PAGE), a, top, x);
  }

  /** The top of the stack after the first `k` frames of a run at `base` were
      pushed onto a stack whose top was `top`. */
  function RunTop(base: int, k: nat, top: Option<int>): Option<int>
  {
    if k == 0 then top else Some(base + 8 * (k - 1))
  }

  /** The memory after `free_page_frame` at `base + 8 * i` for each `i < n` in
      turn, starting from a stack whose top was `top`. */
  function FreedRun(m: map<int, int>, base: int, n: nat, top: Option<int>): map<int, int>
  {
    if n == 0 then m
    else FreeOne(FreedRun(m, base, n - 1, top), base + 8 * (n - 1), RunTop(base, n - 1, top))
  }

  /** Freeing the page that starts at the pointer word of a link stored as
      Some writes the new tag, 1, over that pointer. */
  lemma FreeingPointerWordClobbersLink(m: map<int, int>, at: int, next: int)
    requires at in m && m[at] == 1 && next == at + 8
    ensures at in FreeOne(m, next, Some(at)) && FreeOne(m, next, Some(at))[at] == 1
    ensures next in FreeOne(m, next, Some(at)) && FreeOne(m, next, Some(at))[next] == 1
  {
    FreeOneKeepsBelow(m, next, Some(at), at);
  }

  /** One more frame of the run. */
  lemma FreedRunStep(m: map<int, int>, base: int, i: nat, top: Option<int>, address: int)
    requires address == base + 8 * i
    ensures FreedRun(m, base, i + 1, top) == FreeOne(FreedRun(m, base, i, top), address, RunTop(base, i, top))
    ensures RunTop(base, i + 1, top) == Some(address)
  {
  }

  /** Freeing the rest of a run changes no word below the frames still to
      free. */
  lemma {:induction false} FreedRunKeepsBelow(m: map<int, int>, base: int, j: nat, n: nat, top: Option<int>, x: int)
    requires j <= n && x < base + 8 * j && x in FreedRun(m, base, j, top)
    ensures x in FreedRun(m, base, n, top) && FreedRun(m, base, n, top)[x] == FreedRun(m, base, j, top)[x]
  {
    if n > j {
      FreedRunKeepsBelow(m, base, j, n - 1, top, x);
      FreedRunStepKeeps(m, base, n - 1, top, x);
    }
  }

  /** Freeing one more frame of a run keeps every word below it. */
  lemma FreedRunStepKeeps(m: map<int, int>, base: int, i: nat, top: Option<int>, x: int)
    requires x < base + 8 * i && x in FreedRun(m, base, i, top)
    ensures x in FreedRun(m, base, i + 1, top) && FreedRun(m, base, i + 1, top)[x] == FreedRun(m, base, i, top)[x]
  {
    FreeOneKeepsBelow(FreedRun(m, base, i, top), base + 8 * i, RunTop(base, i, top), x);
  }

  /** Both words of the link at `at` hold 1. */
  predicate Clobbered(r: map<int, int>, at: int)
  {
    at in r && r[at] == 1 && at + 8 in r && r[at + 8] == 1
  }

  /** Frame `k` of a run and the frame after it, freed on top of a stack whose
      top frame `k` saw: both words of frame `k`'s link hold 1. */
  lemma FreedPairClobbersLink(m: map<int, int>, base: int, k: nat, top: Option<int>, at: int)
    requires at == base + 8 * k && (k > 0 || top.Some?)
    ensures Clobbered(FreedRun(m, base, k + 2, top), at)
  {
    FreedRunStep(m, base, k, top, at);
    var m1 := FreedRun(m, base, k + 1, top);
    assert at in m1 && m1[at] == 1;
    FreedRunStep(m, base, k + 1, top, at + 8);
    FreeingPointerWordClobbersLink(m1, at, at + 8);
  }

  /** Freeing the rest of the run keeps a link below it clobbered. */
  lemma FreedRunKeepsClobbered(m: map<int, int>, base: int, j: nat, n: nat, top: Option<int>, at: int)
    requires j <= n && at + 8 < base + 8 * j && Clobbered(FreedRun(m, base, j, top), at)
    ensures Clobbered(FreedRun(m, base, n, top), at)
  {
    FreedRunKeepsBelow(m, base, j, n, top, at);
    FreedRunKeepsBelow(m, base, j, n, top, at + 8);
  }

  /** A link whose tag and pointer both hold 1 reads as a link to address 1. */
  lemma ClobberedReadsOne(r: map<int, int>, at: int)
    requires Clobbered(r, at)
    ensures LinkReadable(r, at) && ReadLink(r, at) == Some(1)
  {
  }

  /** In a run freed by `free_page_frames`, every frame but the last whose
      link was written as Some reads back as linking to address 1: the next
      frame starts at its pointer word, zeroes it and writes its own tag, 1,
      there. So only the frame on top links correctly; the others, and the
      old stack below the first, are lost. */
  lemma FreedRunLinksToOne(m: map<int, int>, base: int, n: nat, top: Option<int>, k: nat)
    requires k + 1 < n && (k > 0 || top.Some?)
    ensures LinkReadable(FreedRun(m, base, n, top), base + 8 * k)
    ensures ReadLink(FreedRun(m, base, n, top), base + 8 * k) == Some(1)
  {
    var at := base + 8 * k;
    FreedPairClobbersLink(m, base, k, top, at);
    FreedRunKeepsClobbered(m, base, k + 2, n, top, at);
    ClobberedReadsOne(FreedRun(m, base, n, top), at);
  }

  /** The addresses `base + 8 * i` for `i < n`, the last first: the order in
      which `free_page_frames` leaves them on the stack. */
  function WordSteps(base: int, n: nat): (r: seq<int>)
    ensures |r| == n
  {
    if n == 0 then [] else [base + 8 * (n - 1)] + WordSteps(base, n - 1)
  }

  /** Position `k` of the pushed addresses holds `base + 8 * (n - 1 - k)`. */
  lemma {:induction false} WordStepsAt(base: int, n: nat, k: nat)
    requires k < n
    ensures WordSteps(base, n)[k] == base + 8 * (n - 1 - k)
  {
    if k > 0 {
      WordStepsAt(base, n - 1, k - 1);
    }
  }

  /** Pushing the next address extends the pushed addresses. */
  lemma StepsPush(base: int, i: nat, before: seq<int>, address: int)
    requires address == base + 8 * i
    ensures WordSteps(base, i + 1) + before == [address] + (WordSteps(base, i) + before)
  {
    assert WordSteps(base, i + 1) == [address] + WordSteps(base, i);
  }

  // ---------------------------------------------------------------------
  // The allocator
  // ---------------------------------------------------------------------

  /** A run of `pages` consecutive frames starting at `start`. */
  datatype Region = Region(start: int, pages: nat)

  function End(r: Region): int
  {
    r.start + r.pages * PAGE_SIZE
  }

  predicate Within(r: Region, a: int)
  {
    r.start <= a < End(r)
  }

  /** Each run ends at or before the start of every later run. */
  predicate Ordered(rs: seq<Region>)
  {
    forall i, j :: 0 <= i < j < |rs| ==> End(rs[i]) <= rs[j].start
  }

  /** Ordered runs never share an address, and the starts of non-empty runs
      strictly increase. */
  lemma OrderedRegionsAreDisjoint(rs: seq<Region>, i: nat, j: nat, a: int)
    requires Ordered(rs) && i < j < |rs|
    ensures !(Within(rs[i], a) && Within(rs[j], a))
    ensures rs[i].pages > 0 ==> rs[i].start < rs[j].start
  {
  }

  /** Adding a page to a page-aligned usize keeps it page-aligned when it
      wraps. */
  lemma WrapKeepsAligned(c: int)
    requires 0 <= c < USIZE_MODULUS && c % PAGE_SIZE == 0
    ensures (c + PAGE_SIZE) % USIZE_MODULUS % PAGE_SIZE == 0
  {
    if c + PAGE_SIZE >= USIZE_MODULUS {
      assert (c + PAGE_SIZE) % USIZE_MODULUS == c + PAGE_SIZE - USIZE_MODULUS;
    }
  }

  /** One more page on a watermark already reduced modulo 2^64. */
  lemma WrapStep(c0: int, i: nat, c: int)
    requires c == (c0 + i * PAGE_SIZE) % USIZE_MODULUS
    ensures (c + PAGE_SIZE) % USIZE_MODULUS == (c0 + (i + 1) * PAGE_SIZE) % USIZE_MODULUS
  {
    var x := c0 + i * PAGE_SIZE;
    var q := x / USIZE_MODULUS;
    assert x == q * USIZE_MODULUS + c;
    assert c0 + (i + 1) * PAGE_SIZE == q * USIZE_MODULUS + (c + PAGE_SIZE);
    ShiftByMultiple(c + PAGE_SIZE, q);
  }

  lemma ShiftByMultiple(y: int, q: int)
    ensures (q * USIZE_MODULUS + y) % USIZE_MODULUS == y % USIZE_MODULUS
  {
    var r := y % USIZE_MODULUS;
    var d := y / USIZE_MODULUS;
    assert y == d * USIZE_MODULUS + r;
    assert q * USIZE_MODULUS + y == (q + d) * USIZE_MODULUS + r;
  }

  /** The runs are ordered, page-aligned, start above the page after the
      free stack's page at `memoryStart`, and end by the frame after the
      watermark `current`. */
  predicate RunsBelow(issued: seq<Region>, memoryStart: int, current: int)
  {
    && Ordered(issued)
    && (forall i :: 0 <= i < |issued| ==>
          issued[i].start % PAGE_SIZE == 0
          && memoryStart + 2 * PAGE_SIZE <= issued[i].start
          && End(issued[i]) <= current + PAGE_SIZE)
  }

  /** A run from one page above the watermark, after which the watermark has
      moved past it, keeps the runs ordered and bounded. */
  lemma AppendRunKeepsBelow(issued: seq<Region>, memoryStart: int, current: int, pages: nat, next: int)
    requires RunsBelow(issued, memoryStart, current)
    requires memoryStart + PAGE_SIZE <= current && current % PAGE_SIZE == 0
    requires next == current + pages * PAGE_SIZE
    ensures RunsBelow(issued + [Region(current + PAGE_SIZE, pages)], memoryStart, next)
  {
  }

  class PageFrameAllocator {
    var memoryStart: int
    var memoryEnd: int
    var freePageFrames: Option<FreeStack>
    var currentPage: int
    /** Every frame run handed out since `init`, in order. */
    ghost var Issued: seq<Region>
    /** Whether the watermark, or a run's start, has passed 2^64 and wrapped. */
    ghost var Wrapped: bool

    /** The watermark is a page-aligned usize; until it wraps, it stays above
        the page of the free stack, and every run handed out is page-aligned,
        starts above the page after the stack and ends by the next frame the
        watermark would give. */
    ghost predicate Valid()
      reads this
    {
      && memoryStart % PAGE_SIZE == 0
      && currentPage % PAGE_SIZE == 0
      && 0 <= currentPage < USIZE_MODULUS
      && (!Wrapped ==> memoryStart + PAGE_SIZE <= currentPage && RunsBelow(Issued, memoryStart, currentPage))
    }

    /** `new`: every field zero and no free stack. */
    constructor ()
      ensures memoryStart == 0 && memoryEnd == 0 && currentPage == 0
      ensures freePageFrames == None && Issued == [] && !Wrapped
    {
      memoryStart := 0;
      memoryEnd := 0;
      freePageFrames := None;
      currentPage := 0;
      Issued := [];
      Wrapped := false;
    }

    /** `init`: both bounds of usable memory are rounded UP to a page, the free
        stack is whatever lies at `memory_start`, and the watermark starts one
        page above the start, modulo 2^64. */
    method Init(startOfUsable: nat, endOfUsable: nat, stackAtStart: FreeStack)
      requires startOfUsable < USIZE_MODULUS && endOfUsable < USIZE_MODULUS
      modifies this
      ensures Valid()
      ensures memoryStart == RoundToNearestPage(startOfUsable)
      ensures memoryEnd == RoundToNearestPage(endOfUsable)
      ensures freePageFrames == Some(stackAtStart)
      ensures currentPage == (memoryStart + PAGE_SIZE) % USIZE_MODULUS && Issued == []
      ensures Wrapped <==> memoryStart + PAGE_SIZE >= USIZE_MODULUS
    {
      memoryStart := RoundToNearestPage(startOfUsable);
      memoryEnd := RoundToNearestPage(endOfUsable);
      freePageFrames := Some(stackAtStart);
      WrapKeepsAligned(memoryStart);
      currentPage := (memoryStart + PAGE_SIZE) % USIZE_MODULUS;
      Issued := [];
      Wrapped := memoryStart + PAGE_SIZE >= USIZE_MODULUS;
    }

    /** `alloc_page_frame`: None exactly when the watermark is already past the
        end; otherwise the watermark moves up one page, modulo 2^64, and its
        new value is the frame. The free stack is not consulted. */
    method AllocPageFrame() returns (frame: Option<int>)
      requires Valid()
      modifies this`currentPage, this`Issued, this`Wrapped
      ensures Valid()
      ensures frame.None? <==> old(currentPage) > memoryEnd
      ensures frame.None? ==> currentPage == old(currentPage) && Issued == old(Issued) && Wrapped == old(Wrapped)
      ensures frame.Some? ==>
                frame.value == (old(currentPage) + PAGE_SIZE) % USIZE_MODULUS == currentPage
                && Issued == old(Issued) + [Region(frame.value, 1)]
                && (Wrapped <==> old(Wrapped) || old(currentPage) + PAGE_SIZE >= USIZE_MODULUS)
    {
      var address := currentPage;
      if address > memoryEnd {
        frame := None;
      } else {
        WrapKeepsAligned(currentPage);
        if !Wrapped && currentPage + PAGE_SIZE < USIZE_MODULUS {
          AppendRunKeepsBelow(Issued, memoryStart, currentPage, 1, currentPage + PAGE_SIZE);
        }
        Wrapped := Wrapped || currentPage + PAGE_SIZE >= USIZE_MODULUS;
        currentPage := (currentPage + PAGE_SIZE) % USIZE_MODULUS;
        Issued := Issued + [Region(currentPage, 1)];
        frame := Some(currentPage);
      }
    }

    /** `alloc_page_frames`: the run starts one page above the watermark, which
        then moves up `pagesRequired` pages, with no bound check; both sums
        wrap modulo 2^64. */
    method AllocPageFrames(pagesRequired: nat) returns (address: int)
      requires Valid()
      modifies this`currentPage, this`Issued, this`Wrapped
      ensures Valid()
      ensures address == (old(currentPage) + PAGE_SIZE) % USIZE_MODULUS
      ensures currentPage == (old(currentPage) + pagesRequired * PAGE_SIZE) % USIZE_MODULUS
      ensures Issued == old(Issued) + [Region(address, pagesRequired)]
      ensures Wrapped <==> (old(Wrapped) || old(currentPage) + PAGE_SIZE >= USIZE_MODULUS
                            || old(currentPage) + pagesRequired * PAGE_SIZE >= USIZE_MODULUS)
    {
      address := (currentPage + PAGE_SIZE) % USIZE_MODULUS;
      AdvanceWatermark(pagesRequired);
      if !Wrapped && old(currentPage) + PAGE_SIZE < USIZE_MODULUS && old(currentPage) + pagesRequired * PAGE_SIZE < USIZE_MODULUS {
        AppendRunKeepsBelow(Issued, memoryStart, old(currentPage), pagesRequired, currentPage);
      }
      Wrapped := Wrapped || old(currentPage) + PAGE_SIZE >= USIZE_MODULUS
                 || old(currentPage) + pagesRequired * PAGE_SIZE >= USIZE_MODULUS;
      Issued := Issued + [Region(address, pagesRequired)];
    }

    /** The loop of `alloc_page_frames`: the watermark moves up one page,
        modulo 2^64, `pages` times. */
    method AdvanceWatermark(pages: nat)
      requires 0 <= currentPage < USIZE_MODULUS && currentPage % PAGE_SIZE == 0
      modifies this`currentPage
      ensures currentPage == (old(currentPage) + pages * PAGE_SIZE) % USIZE_MODULUS
      ensures 0 <= currentPage < USIZE_MODULUS && currentPage % PAGE_SIZE == 0
    {
      var i := 0;
      while i < pages
        invariant 0 <= i <= pages
        invariant currentPage == (old(currentPage) + i * PAGE_SIZE) % USIZE_MODULUS
        invariant 0 <= currentPage < USIZE_MODULUS && currentPage % PAGE_SIZE == 0
      {
        WrapStep(old(currentPage), i, currentPage);
        WrapKeepsAligned(currentPage);
        currentPage := (currentPage + PAGE_SIZE) % USIZE_MODULUS;
        i := i + 1;
      }
    }

    /** `free_page_frame`: all 512 words of the frame are zeroed, then the frame
        is pushed on the free stack, its link written at its start. The chain
        of the stack stays intact when none of its links lies in the page. */
    method FreePageFrame(frameAddress: int, mem: Memory)
      requires freePageFrames.Some?
      modifies mem, freePageFrames.value
      ensures var s := freePageFrames.value;
              && mem.words == FreeOne(old(mem.words), frameAddress, old(s.top))
              && s.top == Some(frameAddress) && s.length == old(s.length) + 1
              && s.Frames == [frameAddress] + old(s.Frames)
      ensures old(freePageFrames.value.Valid(mem.words)) && PageClear(frameAddress, old(freePageFrames.value.Frames))
              ==> freePageFrames.value.Valid(mem.words)
    {
      var stack := freePageFrames.value;
      ghost var keeps := stack.Valid(mem.words) && PageClear(frameAddress, stack.Frames);
      ZeroFrame(frameAddress, mem);
      if keeps {
        ZeroingKeepsClearLinks(stack, old(mem.words), frameAddress);
      }
      stack.Push(frameAddress, mem);
    }

    /** The loop of `free_page_frame`: the 512 words of the frame are set
        to zero, one after another. */
    static method ZeroFrame(frameAddress: int, mem: Memory)
      modifies mem`words
      ensures mem.words == Zeroed(old(mem.words), frameAddress, WORDS_PER_PAGE)
    {
      var i := 0;
      while i < WORDS_PER_PAGE
        invariant 0 <= i <= WORDS_PER_PAGE
        invariant mem.words == Zeroed(old(mem.words), frameAddress, i)
      {
        mem.words := mem.words[frameAddress + 8 * i := 0];
        i := i + 1;
      }
    }

    /** `free_page_frames`: `free_page_frame` at `frame_address.offset(i)` for
        each `i < pages_required`. The offset counts words, not pages, so the
        frames pushed lie eight bytes apart and each one's zeroing and link
        overwrite the link of the one before (`FreedRunLinksToOne`). */
    method FreePageFrames(frameAddress: int, pagesRequired: nat, mem: Memory)
      requires freePageFrames.Some?
      modifies mem, freePageFrames.value
      ensures var s := freePageFrames.value;
              && mem.words == FreedRun(old(mem.words), frameAddress, pagesRequired, old(s.top))
              && s.top == RunTop(frameAddress, pagesRequired, old(s.top))
              && s.length == old(s.length) + pagesRequired
              && s.Frames == WordSteps(frameAddress, pagesRequired) + old(s.Frames)
    {
      var stack := freePageFrames.value;
      ghost var before := stack.Frames;
      ghost var top0 := stack.top;
      var i := 0;
      while i < pagesRequired
        invariant 0 <= i <= pagesRequired
        invariant freePageFrames == Some(stack)
        invariant mem.words == FreedRun(old(mem.words), frameAddress, i, top0)
        invariant stack.top == RunTop(frameAddress, i, top0)
        invariant stack.Frames == WordSteps(frameAddress, i) + before
        invariant stack.length == old(stack.length) + i
      {
        ghost var prev, prevTop := mem.words, stack.top;
        var address := frameAddress + 8 * i;
        FreePageFrame(address, mem);
        assert mem.words == FreeOne(prev, address, prevTop);
        FreedRunStep(old(mem.words), frameAddress, i, top0, address);
        StepsPush(frameAddress, i, before, address);
        i := i + 1;
      }
    }
  }

  /** Frames handed out by a valid allocator whose watermark never wrapped
      lie in distinct runs that never overlap, are page-aligned, and never
      include the page holding the free stack or the page right after it. */
  lemma IssuedFramesAreDisjoint(pfa: PageFrameAllocator, i: nat, j: nat, a: int)
    requires pfa.Valid() && !pfa.Wrapped && i < j < |pfa.Issued|
    ensures !(Within(pfa.Issued[i], a) && Within(pfa.Issued[j], a))
    ensures pfa.Issued[j].start % PAGE_SIZE == 0 && pfa.Issued[j].start >= pfa.memoryStart + 2 * PAGE_SIZE
  {
    OrderedRegionsAreDisjoint(pfa.Issued, i, j, a);
  }

  /** A request for 2^52 - 1 pages carries the watermark round 2^64 bytes
      less a page: the next `alloc_page_frame` hands out the frame it handed
      out before, which also lies inside the run just returned. */
  method WatermarkWrapScenario() returns (first: Option<int>, run: int, again: Option<int>)
    ensures first == again == Some(0x10_2000) && run == 0x10_3000
  {
    var pfa := new PageFrameAllocator();
    var stack := new FreeStack();
    pfa.Init(0x10_0000, 0x20_0000, stack);
    first := pfa.AllocPageFrame();
    run := pfa.AllocPageFrames(0xF_FFFF_FFFF_FFFF);
    again := pfa.AllocPageFrame();
  }

  /** Freeing three frames at `f` onto an empty stack and popping twice gives
      `f + 16` and then `f + 8`, and leaves address 1 on top, which the next
      pop hands out as a frame. */
  method FreeThreeThenPop(f: int) returns (first: Option<int>, second: Option<int>, stack: FreeStack)
    ensures first == Some(f + 16) && second == Some(f + 8) && stack.top == Some(1)
  {
    var pfa := new PageFrameAllocator();
    stack := new FreeStack();
    pfa.Init(0x10_0000, 0x20_0000, stack);
    var mem := new Memory();
    pfa.FreePageFrames(f, 3, mem);
    first := stack.Pop(mem);
    FreedRunLinksToOne(map[], f, 3, None, 1);
    second := stack.Pop(mem);
  }
}
