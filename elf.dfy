/** The ELF loader (kernel/src/multitask/elf.rs). Memory is a byte sequence
    indexed by address; the file starts at `fileStart`. The header is the
    64-byte ELF64 header of the System V gABI (chapter 4, "ELF Header") and each
    program header is the packed 56-byte ELF64 program header. */
module Elf {
  import opened Wrappers
  import opened LittleEndian
  import opened PageFrames

  const ELF_FLAG_MAG0: nat := 0x7F
  const ELF_CLASS: nat := 2
  const ELF_DATA: nat := 1
  const ELF_VERSION: nat := 1
  const ELF_MACHINE: nat := 0x3E
  const ET_EXEC: nat := 2
  const PT_LOAD: nat := 1
  const ELF_HEADER_SIZE: nat := 64
  /** `size_of::<ElfProgramHeader>()`: 4 + 4 + 6 * 8. */
  const PROGRAM_HEADER_SIZE: nat := 56

  /** `ElfHeader`, field by field. */
  datatype ElfHeader = ElfHeader(
    ident: seq<Byte>, eType: nat, machine: nat, version: nat, entry: nat,
    phoff: nat, shoff: nat, flags: nat, ehsize: nat, phentsize: nat,
    phnum: nat, shentsize: nat, shnum: nat, shstrndx: nat)

  /** The packed header read at `at`. */
  function ParseHeader(memory: seq<Byte>, at: nat): (h: ElfHeader)
    requires at + ELF_HEADER_SIZE <= |memory|
    ensures |h.ident| == 16 && h.phnum < 0x1_0000 && h.phoff < USIZE_MODULUS
  {
    ElfHeader(
      memory[at..at + 16], Le16(memory, at + 16), Le16(memory, at + 18),
      Le32(memory, at + 20), Le64(memory, at + 24), Le64(memory, at + 32),
      Le64(memory, at + 40), Le32(memory, at + 48), Le16(memory, at + 52),
      Le16(memory, at + 54), Le16(memory, at + 56), Le16(memory, at + 58),
      Le16(memory, at + 60), Le16(memory, at + 62))
  }

  /** The `assert!`s of `validate_file`, in the order they are checked. */
  datatype ElfError =
    | Mag0Incorrect | Mag1Incorrect | Mag2Incorrect | Mag3Incorrect
    | UnsupportedClass | UnsupportedByteOrder | UnsupportedVersion
    | UnsupportedTarget | UnsupportedType

  /** Position of each check in `validate_file`. */
  function Rank(e: ElfError): nat
  {
    match e
    case Mag0Incorrect => 0
    case Mag1Incorrect => 1
    case Mag2Incorrect => 2
    case Mag3Incorrect => 3
    case UnsupportedClass => 4
    case UnsupportedByteOrder => 5
    case UnsupportedVersion => 6
    case UnsupportedTarget => 7
    case UnsupportedType => 8
  }

  /** The condition each check demands. */
  predicate Holds(h: ElfHeader, e: ElfError)
    requires |h.ident| == 16
  {
    match e
    case Mag0Incorrect => h.ident[0] == ELF_FLAG_MAG0
    case Mag1Incorrect => h.ident[1] == 'E' as int
    case Mag2Incorrect => h.ident[2] == 'L' as int
    case Mag3Incorrect => h.ident[3] == 'F' as int
    case UnsupportedClass => h.ident[4] == ELF_CLASS
    case UnsupportedByteOrder => h.ident[5] == ELF_DATA
    case UnsupportedVersion => h.ident[6] == ELF_VERSION
    case UnsupportedTarget => h.machine == ELF_MACHINE
    case UnsupportedType => h.eType == ET_EXEC
  }

  /** A little-endian 64-bit x86-64 executable of ELF version 1. */
  predicate Supported(h: ElfHeader)
    requires |h.ident| == 16
  {
    && h.ident[0] == ELF_FLAG_MAG0 && h.ident[1] == 'E' as int && h.ident[2] == 'L' as int && h.ident[3] == 'F' as int
    && h.ident[4] == ELF_CLASS && h.ident[5] == ELF_DATA && h.ident[6] == ELF_VERSION
    && h.machine == ELF_MACHINE && h.eType == ET_EXEC
  }

  /** `validate_file`: true when every check passes; the first failing check
      stops the kernel. */
  function ValidateFile(h: ElfHeader): (r: Outcome<bool, ElfError>)
    requires |h.ident| == 16
    ensures r.Ok? <==> Supported(h)
    ensures r.Ok? ==> r.value
    ensures r.Panic? ==> !Holds(h, r.reason)
  {
    if h.ident[0] != ELF_FLAG_MAG0 then Panic(Mag0Incorrect)
    else if h.ident[1] != 'E' as int then Panic(Mag1Incorrect)
    else if h.ident[2] != 'L' as int then Panic(Mag2Incorrect)
    else if h.ident[3] != 'F' as int then Panic(Mag3Incorrect)
    else if h.ident[4] != ELF_CLASS then Panic(UnsupportedClass)
    else if h.ident[5] != ELF_DATA then Panic(UnsupportedByteOrder)
    else if h.ident[6] != ELF_VERSION then Panic(UnsupportedVersion)
    else if h.machine != ELF_MACHINE then Panic(UnsupportedTarget)
    else if h.eType != ET_EXEC then Panic(UnsupportedType)
    else Ok(true)
  }

  /** The reported failure is the first: every check before it passed. */
  lemma ValidateFileReportsFirstFailure(h: ElfHeader, e: ElfError)
    requires |h.ident| == 16
    requires ValidateFile(h).Panic? && Rank(e) < Rank(ValidateFile(h).reason)
    ensures Holds(h, e)
  {
  }

  /** On the bytes of the file: the magic 7F 'E' 'L' 'F', class 2, data 1,
      version 1, machine 0x3E and type 2 as little-endian halves. */
  lemma ValidateFileOnBytes(memory: seq<Byte>, at: nat)
    requires at + ELF_HEADER_SIZE <= |memory|
    ensures ValidateFile(ParseHeader(memory, at)).Ok? <==>
              && memory[at] == 0x7F && memory[at + 1] == 0x45 && memory[at + 2] == 0x4C
              && memory[at + 3] == 0x46 && memory[at + 4] == 2 && memory[at + 5] == 1 && memory[at + 6] == 1
              && memory[at + 16] == 2 && memory[at + 17] == 0
              && memory[at + 18] == 0x3E && memory[at + 19] == 0
  {
    var h := ParseHeader(memory, at);
    assert h.eType == (memory[at + 17] as int) * 256 + memory[at + 16] as int;
    assert h.machine == (memory[at + 19] as int) * 256 + memory[at + 18] as int;
    assert forall k :: 0 <= k < 7 ==> h.ident[k] == memory[at + k];
  }

  /** `ElfProgramHeader`, field by field. */
  datatype ProgramHeader = ProgramHeader(
    pType: nat, pFlags: nat, offset: nat, vaddr: nat, paddr: nat,
    filesz: nat, memsz: nat, align: nat)

  function ParseProgramHeader(memory: seq<Byte>, at: nat): (p: ProgramHeader)
    requires at + PROGRAM_HEADER_SIZE <= |memory|
    ensures p.offset < USIZE_MODULUS && p.memsz < USIZE_MODULUS && p.vaddr < USIZE_MODULUS
  {
    ProgramHeader(
      Le32(memory, at), Le32(memory, at + 4), Le64(memory, at + 8),
      Le64(memory, at + 16), Le64(memory, at + 24), Le64(memory, at + 32),
      Le64(memory, at + 40), Le64(memory, at + 48))
  }

  /** The address `parse_program_headers` reads header `i` from, wrapping as
      a release build does. */
  function ProgramHeaderAddress(fileStart: nat, phoff: nat, i: nat): (a: nat)
    ensures a < USIZE_MODULUS
    ensures fileStart + phoff + PROGRAM_HEADER_SIZE * i < USIZE_MODULUS ==>
              a == fileStart + phoff + PROGRAM_HEADER_SIZE * i
  {
    (fileStart + phoff + PROGRAM_HEADER_SIZE * i) % USIZE_MODULUS
  }

  /** The table holds `phnum` headers one after another. */
  lemma ProgramHeadersAreContiguous(fileStart: nat, phoff: nat, i: nat)
    requires fileStart + phoff + PROGRAM_HEADER_SIZE * (i + 1) < USIZE_MODULUS
    ensures ProgramHeaderAddress(fileStart, phoff, i + 1)
            == ProgramHeaderAddress(fileStart, phoff, i) + PROGRAM_HEADER_SIZE
  {
  }

  /** Every header of the table lies in memory. */
  predicate TableInMemory(memory: seq<Byte>, fileStart: nat, h: ElfHeader)
  {
    fileStart + h.phoff + PROGRAM_HEADER_SIZE * h.phnum <= |memory| <= USIZE_MODULUS
  }

  /** Program header `i` as `parse_program_headers` reads it. */
  function HeaderAt(memory: seq<Byte>, fileStart: nat, h: ElfHeader, i: nat): ProgramHeader
    requires TableInMemory(memory, fileStart, h) && i < h.phnum
  {
    ParseProgramHeader(memory, ProgramHeaderAddress(fileStart, h.phoff, i))
  }

  /** The whole program header table. */
  function ProgramHeaderTable(memory: seq<Byte>, fileStart: nat, h: ElfHeader): (t: seq<ProgramHeader>)
    requires TableInMemory(memory, fileStart, h)
    ensures |t| == h.phnum
  {
    seq(h.phnum, i requires 0 <= i < h.phnum => HeaderAt(memory, fileStart, h, i))
  }

  /** `file_start + p_offset`: where a segment's bytes are copied from. */
  function SegmentSource(fileStart: nat, p: ProgramHeader): nat
  {
    (fileStart + p.offset) % USIZE_MODULUS
  }

  /** Program header `p`'s file bytes lie in memory. */
  predicate InMemory(memory: seq<Byte>, fileStart: nat, p: ProgramHeader)
  {
    SegmentSource(fileStart, p) + p.filesz <= |memory| && p.memsz < USIZE_MODULUS
  }

  /** Every loadable segment's file bytes lie in memory. */
  predicate SourcesInMemory(memory: seq<Byte>, fileStart: nat, ps: seq<ProgramHeader>)
  {
    forall i :: 0 <= i < |ps| && ps[i].pType == PT_LOAD ==> InMemory(memory, fileStart, ps[i])
  }

  /** The `PT_LOAD` headers of `ps`, in table order. */
  function Loadable(ps: seq<ProgramHeader>): seq<ProgramHeader>
  {
    if ps == [] then []
    else if ps[|ps| - 1].pType == PT_LOAD then Loadable(ps[..|ps| - 1]) + [ps[|ps| - 1]]
    else Loadable(ps[..|ps| - 1])
  }

  lemma LoadableSnoc(ps: seq<ProgramHeader>, p: ProgramHeader)
    ensures Loadable(ps + [p]) == if p.pType == PT_LOAD then Loadable(ps) + [p] else Loadable(ps)
  {
    assert (ps + [p])[..|ps|] == ps;
  }

  /** Only `PT_LOAD` headers are loaded, and only a table whose every header is
      `PT_LOAD` loads every header. */
  lemma {:induction false} LoadableIsAllExactlyWhenAllLoad(ps: seq<ProgramHeader>)
    ensures forall k :: 0 <= k < |Loadable(ps)| ==> Loadable(ps)[k].pType == PT_LOAD
    ensures |Loadable(ps)| <= |ps|
    ensures |Loadable(ps)| == |ps| <==> forall i :: 0 <= i < |ps| ==> ps[i].pType == PT_LOAD
  {
    if ps != [] {
      var init := ps[..|ps| - 1];
      LoadableIsAllExactlyWhenAllLoad(init);
      assert forall i :: 0 <= i < |init| ==> init[i] == ps[i];
    }
  }

  /** A loaded header keeps its place among the others: the `k`-th loaded
      header is a `PT_LOAD` header of the table, and every `PT_LOAD` header of
      the table is loaded. */
  lemma {:induction false} LoadableIsTheLoadHeaders(ps: seq<ProgramHeader>, p: ProgramHeader)
    ensures p in Loadable(ps) <==> p in ps && p.pType == PT_LOAD
  {
    if ps != [] {
      var init := ps[..|ps| - 1];
      LoadableIsTheLoadHeaders(init, p);
      assert ps == init + [ps[|ps| - 1]];
    }
  }

  /** What the frames at `dest` hold after `write_bytes(dest, 0, memsz)` and
      `copy_nonoverlapping(source, dest, filesz)`: the file bytes, then zeros up
      to `memsz`. The copy is not clipped to `memsz`. */
  function SegmentBytes(file: seq<Byte>, memsz: nat): (r: seq<Byte>)
    ensures |r| == if |file| <= memsz then memsz else |file|
    ensures r[..|file|] == file
    ensures forall k :: |file| <= k < |r| ==> r[k] == 0
  {
    if |file| <= memsz then file + seq(memsz - |file|, _ => 0) else file
  }

  /** A segment whose file part is no longer than its memory part fits in the
      frames allocated for it; a longer file part spills past them. */
  lemma SegmentFitsItsFrames(file: seq<Byte>, memsz: nat)
    requires memsz + 4095 < USIZE_MODULUS
    ensures |file| <= memsz ==>
              |SegmentBytes(file, memsz)| <= GetNumberOfPages(RoundToNearestPage(memsz)) * PAGE_SIZE
    ensures |file| > RoundToNearestPage(memsz) ==>
              |SegmentBytes(file, memsz)| > GetNumberOfPages(RoundToNearestPage(memsz)) * PAGE_SIZE
  {
    PagesOfRoundedSize(memsz);
  }

  /** A segment copied to its frames, and the value `load_segment_into_memory`
      returns. */
  datatype LoadedSegment = LoadedSegment(dest: int, pages: nat, bytes: seq<Byte>, vaddr: nat, end: nat)

  /** `load_segment_into_memory`: allocate the rounded size in frames, zero
      `memsz` bytes, copy `filesz` bytes, and return `v_address` plus the
      rounded size. Mapping the pages is `Paging.PageTables.MapPages`. */
  method LoadSegmentIntoMemory(pfa: PageFrameAllocator, memory: seq<Byte>, source: nat,
                               filesz: nat, memsz: nat, vAddress: nat)
    returns (s: LoadedSegment)
    requires pfa.Valid() && source + filesz <= |memory| && memsz < USIZE_MODULUS
    modifies pfa`currentPage, pfa`Issued, pfa`Wrapped
    ensures pfa.Valid()
    ensures s.dest == (old(pfa.currentPage) + PAGE_SIZE) % USIZE_MODULUS
    ensures s.pages == GetNumberOfPages(RoundToNearestPage(memsz))
    ensures pfa.Issued == old(pfa.Issued) + [Region(s.dest, s.pages)]
    ensures s.bytes == SegmentBytes(memory[source..source + filesz], memsz)
    ensures s.vaddr == vAddress
    ensures s.end == (vAddress + RoundToNearestPage(memsz)) % USIZE_MODULUS
  {
    var roundedSize := RoundToNearestPage(memsz);
    var numberOfPages := GetNumberOfPages(roundedSize);
    var dest := pfa.AllocPageFrames(numberOfPages);
    var bytes := SegmentBytes(memory[source..source + filesz], memsz);
    s := LoadedSegment(dest, numberOfPages, bytes, vAddress, (vAddress + roundedSize) % USIZE_MODULUS);
  }

  /** The returned end address is past every byte of the segment and on a
      page boundary when the virtual address is. */
  lemma LoadedSegmentEnd(vAddress: nat, memsz: nat)
    requires vAddress + memsz + 4095 < USIZE_MODULUS
    ensures var end := (vAddress + RoundToNearestPage(memsz)) % USIZE_MODULUS;
            && vAddress + memsz <= end < vAddress + memsz + PAGE_SIZE
            && (vAddress % PAGE_SIZE == 0 ==> end % PAGE_SIZE == 0)
  {
  }

  /** The segment `LoadSegmentIntoMemory` makes of program header `p`. */
  predicate LoadedFrom(memory: seq<Byte>, fileStart: nat, p: ProgramHeader, s: LoadedSegment)
    requires InMemory(memory, fileStart, p)
  {
    && s.pages == GetNumberOfPages(RoundToNearestPage(p.memsz))
    && s.bytes == SegmentBytes(memory[SegmentSource(fileStart, p)..SegmentSource(fileStart, p) + p.filesz], p.memsz)
    && s.vaddr == p.vaddr
    && s.end == (p.vaddr + RoundToNearestPage(p.memsz)) % USIZE_MODULUS
  }

  /** Segment `k` was loaded from header `k`, for every `k`. */
  predicate LoadedAll(memory: seq<Byte>, fileStart: nat, ps: seq<ProgramHeader>, segments: seq<LoadedSegment>)
  {
    && |ps| == |segments|
    && forall k :: 0 <= k < |ps| ==>
         InMemory(memory, fileStart, ps[k]) && LoadedFrom(memory, fileStart, ps[k], segments[k])
  }

  /** The allocator's record grew by one run per segment, the segment's frames. */
  predicate IssuedFor(issued: seq<Region>, before: seq<Region>, segments: seq<LoadedSegment>)
  {
    && |issued| == |before| + |segments|
    && issued[..|before|] == before
    && forall k :: 0 <= k < |segments| ==> issued[|before| + k] == Region(segments[k].dest, segments[k].pages)
  }

  lemma LoadedAllSnoc(memory: seq<Byte>, fileStart: nat, ps: seq<ProgramHeader>, segments: seq<LoadedSegment>,
                      p: ProgramHeader, s: LoadedSegment)
    requires LoadedAll(memory, fileStart, ps, segments)
    requires InMemory(memory, fileStart, p) && LoadedFrom(memory, fileStart, p, s)
    ensures LoadedAll(memory, fileStart, ps + [p], segments + [s])
  {
  }

  lemma IssuedForSnoc(issued: seq<Region>, before: seq<Region>, segments: seq<LoadedSegment>, s: LoadedSegment)
    requires IssuedFor(issued, before, segments)
    ensures IssuedFor(issued + [Region(s.dest, s.pages)], before, segments + [s])
  {
    assert (issued + [Region(s.dest, s.pages)])[..|before|] == issued[..|before|];
  }

  /** The `match` on `p_type`: a `PT_LOAD` segment is loaded, any other
      header is skipped. */
  method LoadIfLoadable(pfa: PageFrameAllocator, memory: seq<Byte>, fileStart: nat, p: ProgramHeader)
    returns (s: Option<LoadedSegment>)
    requires pfa.Valid() && (p.pType == PT_LOAD ==> InMemory(memory, fileStart, p))
    modifies pfa`currentPage, pfa`Issued, pfa`Wrapped
    ensures pfa.Valid()
    ensures s.Some? <==> p.pType == PT_LOAD
    ensures s.Some? ==> LoadedFrom(memory, fileStart, p, s.value)
                        && pfa.Issued == old(pfa.Issued) + [Region(s.value.dest, s.value.pages)]
    ensures s.None? ==> pfa.Issued == old(pfa.Issued)
  {
    if p.pType == PT_LOAD {
      var source := SegmentSource(fileStart, p);
      var segment := LoadSegmentIntoMemory(pfa, memory, source, p.filesz, p.memsz, p.vaddr);
      s := Some(segment);
    } else {
      s := None;
    }
  }

  /** `parse_program_headers`: walk the table and load every `PT_LOAD` segment,
      each into frames of its own. */
  method ParseProgramHeaders(pfa: PageFrameAllocator, memory: seq<Byte>, fileStart: nat, h: ElfHeader)
    returns (segments: seq<LoadedSegment>)
    requires pfa.Valid() && TableInMemory(memory, fileStart, h)
    requires SourcesInMemory(memory, fileStart, ProgramHeaderTable(memory, fileStart, h))
    modifies pfa`currentPage, pfa`Issued, pfa`Wrapped
    ensures pfa.Valid()
    ensures LoadedAll(memory, fileStart, Loadable(ProgramHeaderTable(memory, fileStart, h)), segments)
    ensures IssuedFor(pfa.Issued, old(pfa.Issued), segments)
  {
    ghost var table := ProgramHeaderTable(memory, fileStart, h);
    ghost var before := pfa.Issued;
    segments := [];
    var i := 0;
    while i < h.phnum
      invariant 0 <= i <= h.phnum && pfa.Valid() && before == old(pfa.Issued)
      invariant LoadedAll(memory, fileStart, Loadable(table[..i]), segments)
      invariant IssuedFor(pfa.Issued, before, segments)
    {
      segments := LoadNext(pfa, memory, fileStart, h, i, before, segments);
      i := i + 1;
    }
    assert table[..i] == table;
  }

  /** One turn of the loop in `parse_program_headers`: read header `i` and
      load it when it is `PT_LOAD`. */
  method LoadNext(pfa: PageFrameAllocator, memory: seq<Byte>, fileStart: nat, h: ElfHeader, i: nat,
                  ghost before: seq<Region>, segments: seq<LoadedSegment>)
    returns (next: seq<LoadedSegment>)
    requires pfa.Valid() && TableInMemory(memory, fileStart, h) && i < h.phnum
    requires SourcesInMemory(memory, fileStart, ProgramHeaderTable(memory, fileStart, h))
    requires LoadedAll(memory, fileStart, Loadable(ProgramHeaderTable(memory, fileStart, h)[..i]), segments)
    requires IssuedFor(pfa.Issued, before, segments)
    modifies pfa`currentPage, pfa`Issued, pfa`Wrapped
    ensures pfa.Valid()
    ensures LoadedAll(memory, fileStart, Loadable(ProgramHeaderTable(memory, fileStart, h)[..i + 1]), next)
    ensures IssuedFor(pfa.Issued, before, next)
  {
    ghost var table := ProgramHeaderTable(memory, fileStart, h);
    var address := ProgramHeaderAddress(fileStart, h.phoff, i);
    var programHeader := ParseProgramHeader(memory, address);
    assert programHeader == table[i];
    assert table[..i + 1] == table[..i] + [programHeader];
    LoadableSnoc(table[..i], programHeader);
    ghost var issued := pfa.Issued;
    var s := LoadIfLoadable(pfa, memory, fileStart, programHeader);
    if s.Some? {
      LoadedAllSnoc(memory, fileStart, Loadable(table[..i]), segments, programHeader, s.value);
      IssuedForSnoc(issued, before, segments, s.value);
      next := segments + [s.value];
    } else {
      next := segments;
    }
  }

  /** `parse`: validate the header at `fileStart`, then load its segments. */
  method Parse(pfa: PageFrameAllocator, memory: seq<Byte>, fileStart: nat)
    returns (r: Outcome<seq<LoadedSegment>, ElfError>)
    requires pfa.Valid() && fileStart + ELF_HEADER_SIZE <= |memory|
    requires var h := ParseHeader(memory, fileStart);
             Supported(h) ==> TableInMemory(memory, fileStart, h)
                              && SourcesInMemory(memory, fileStart, ProgramHeaderTable(memory, fileStart, h))
    modifies pfa`currentPage, pfa`Issued, pfa`Wrapped
    ensures pfa.Valid()
    ensures r.Ok? <==> Supported(ParseHeader(memory, fileStart))
    ensures r.Panic? ==> ValidateFile(ParseHeader(memory, fileStart)) == Panic(r.reason) && pfa.Issued == old(pfa.Issued)
    ensures r.Ok? ==>
              var h := ParseHeader(memory, fileStart);
              LoadedAll(memory, fileStart, Loadable(ProgramHeaderTable(memory, fileStart, h)), r.value)
              && IssuedFor(pfa.Issued, old(pfa.Issued), r.value)
  {
    var h := ParseHeader(memory, fileStart);
    var valid := ValidateFile(h);
    if valid.Panic? {
      return Panic(valid.reason);
    }
    var segments := ParseProgramHeaders(pfa, memory, fileStart, h);
    r := Ok(segments);
  }
}
