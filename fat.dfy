/** The FAT16 file allocation table (kernel/src/fs/fat.rs). The disk image is
    mapped in memory; the table itself is the byte sequence (or array) that
    starts at `fat_addr`, and the boot sector is the first 512 bytes of the
    image. Entries are little-endian 16-bit values, as in Microsoft's FAT
    specification (fatgen103, section "FAT Data Structure"). */
module Fat16 {
  import opened Wrappers
  import opened LittleEndian

  const BYTES_PER_SECTOR: nat := 512
  const BYTES_PER_CLUSTER: nat := 2048
  const BYTES_PER_FAT: nat := 10240
  const SECTORS_PER_CLUSTER: nat := 4
  const USIZE_MODULUS: nat := 0x1_0000_0000_0000_0000
  const U16_MODULUS: nat := 0x1_0000

  /** The reasons the FAT code stops the kernel. */
  datatype FatError =
    | InvalidJmp | BytesPerSectorNot512 | SectorsPerClusterNot4 | TableCountNot2
    | TableSizeNot20 | InvalidLargeSectorCount | InvalidSignature
    | InvalidBootableSignature | EmptyCluster | BadCluster | IndexOutOfBounds

  /** The two bytes of a 16-bit value split as `write_fat` splits it. */
  lemma Le16OfSplit(s: seq<Byte>, i: nat, v: nat)
    requires i + 1 < |s|
    requires s[i] == v % 256 && s[i + 1] == (v / 256) % 256
    ensures Le16(s, i) == v % U16_MODULUS
  {
  }

  // ---------------------------------------------------------------------
  // Boot sector
  // ---------------------------------------------------------------------

  /** `BiosParameterBlock`: the packed 36-byte record at the start of the image. */
  datatype BiosParameterBlock = BiosParameterBlock(
    jmp: seq<Byte>, oem: seq<Byte>, bytesPerSector: nat, sectorsPerCluster: nat,
    reservedSectorCount: nat, tableCount: nat, rootEntryCount: nat,
    sectorCount16: nat, mediaType: nat, tableSize16: nat, sectorsPerTrack: nat,
    headCount: nat, hiddenSectorCount: nat, largeSectorCount: nat)

  /** `ExtendedBootRecord`: the packed 476-byte record that follows it. */
  datatype ExtendedBootRecord = ExtendedBootRecord(
    driveNumber: nat, ntFlags: nat, signature: nat, serial: nat,
    volumeLabel: seq<Byte>, systemIdString: nat, bootcode: seq<Byte>,
    bootablePartitionSignature: nat)

  const BPB_SIZE: nat := 36
  const BOOT_SECTOR_SIZE: nat := 512

  /** The packed field offsets of `BiosParameterBlock`: every field has the
      width of its `u8`, `u16` or `u32` and the byte arrays their lengths. */
  function ParseBpb(image: seq<Byte>): (r: BiosParameterBlock)
    requires BPB_SIZE <= |image|
    ensures |r.jmp| == 3 && |r.oem| == 8
    ensures r.sectorsPerCluster < 256 && r.tableCount < 256 && r.mediaType < 256
    ensures r.bytesPerSector < U16_MODULUS && r.reservedSectorCount < U16_MODULUS
            && r.rootEntryCount < U16_MODULUS && r.sectorCount16 < U16_MODULUS
            && r.tableSize16 < U16_MODULUS && r.sectorsPerTrack < U16_MODULUS
            && r.headCount < U16_MODULUS
    ensures r.hiddenSectorCount < 0x1_0000_0000 && r.largeSectorCount < 0x1_0000_0000
  {
    BiosParameterBlock(
      image[0..3], image[3..11], Le16(image, 11), image[13],
      Le16(image, 14), image[16], Le16(image, 17),
      Le16(image, 19), image[21], Le16(image, 22), Le16(image, 24),
      Le16(image, 26), Le32(image, 28), Le32(image, 32))
  }

  /** The packed field offsets of `ExtendedBootRecord`, read from `BPB_SIZE` on:
      the record ends exactly at the end of the 512-byte boot sector. */
  function ParseEbr(image: seq<Byte>): (r: ExtendedBootRecord)
    requires BOOT_SECTOR_SIZE <= |image|
    ensures |r.volumeLabel| == 11 && |r.bootcode| == 448
    ensures BPB_SIZE + 3 + 4 + |r.volumeLabel| + 8 + |r.bootcode| + 2 == BOOT_SECTOR_SIZE
    ensures r.driveNumber < 256 && r.ntFlags < 256 && r.signature < 256
    ensures r.serial < 0x1_0000_0000 && r.systemIdString < USIZE_MODULUS
    ensures r.bootablePartitionSignature < U16_MODULUS
  {
    ExtendedBootRecord(
      image[36], image[37], image[38], Le32(image, 39),
      image[43..54], Le64(image, 54), image[62..510], Le16(image, 510))
  }

  /** The only geometry the driver accepts. */
  predicate AcceptedBpb(b: BiosParameterBlock)
  {
    b.jmp == [0xEB, 0x3C, 0x90] && b.bytesPerSector == BYTES_PER_SECTOR
    && b.sectorsPerCluster == SECTORS_PER_CLUSTER && b.tableCount == 2
    && b.tableSize16 == 20 && b.largeSectorCount == 0
  }

  /** `BiosParameterBlock::verify`: each `assert!` in turn; the first that fails
      panics with its own message. */
  function VerifyBpb(b: BiosParameterBlock): (r: Outcome<(), FatError>)
    requires |b.jmp| == 3
    ensures r.Ok? <==> AcceptedBpb(b)
    ensures b.jmp != [0xEB, 0x3C, 0x90] ==> r == Panic(InvalidJmp)
    ensures r.Panic? && r.reason == InvalidLargeSectorCount ==>
              b.tableSize16 == 20 && b.largeSectorCount != 0
  {
    if !(b.jmp[0] == 0xEB && b.jmp[1] == 0x3C && b.jmp[2] == 0x90) then Panic(InvalidJmp)
    else if b.bytesPerSector != BYTES_PER_SECTOR then Panic(BytesPerSectorNot512)
    else if b.sectorsPerCluster != 4 then Panic(SectorsPerClusterNot4)
    else if b.tableCount != 2 then Panic(TableCountNot2)
    else if b.tableSize16 != 20 then Panic(TableSizeNot20)
    else if b.largeSectorCount != 0 then Panic(InvalidLargeSectorCount)
    else Ok(())
  }

  /** `ExtendedBootRecord::verify`. */
  function VerifyEbr(e: ExtendedBootRecord): (r: Outcome<(), FatError>)
    ensures r.Ok? <==> (e.signature == 0x28 || e.signature == 0x29)
                        && e.bootablePartitionSignature == 0xAA55
    ensures e.signature != 0x28 && e.signature != 0x29 ==> r == Panic(InvalidSignature)
  {
    if !(e.signature == 0x29 || e.signature == 0x28) then Panic(InvalidSignature)
    else if e.bootablePartitionSignature != 0xAA55 then Panic(InvalidBootableSignature)
    else Ok(())
  }

  /** `convert_sector_to_bytes`, in wrapping usize arithmetic. */
  function ConvertSectorToBytes(sector: nat): (bytes: nat)
    ensures bytes < USIZE_MODULUS && bytes % BYTES_PER_SECTOR == 0
    ensures sector < USIZE_MODULUS / BYTES_PER_SECTOR ==> bytes == sector * BYTES_PER_SECTOR
  {
    (sector * 512) % USIZE_MODULUS
  }

  /** Sectors of the root directory: `(entries*32 + bps - 1) / bps`, where the
      numerator is computed in wrapping u16 arithmetic and `bps` is the 512
      that `verify` insists on. */
  function RootDirSectors(rootEntryCount: nat): (n: nat)
    ensures n < U16_MODULUS / BYTES_PER_SECTOR
  {
    (((rootEntryCount * 32) % U16_MODULUS + (BYTES_PER_SECTOR - 1)) % U16_MODULUS) / BYTES_PER_SECTOR
  }

  /** While the u16 numerator does not wrap, the root directory gets the least
      number of 512-byte sectors that holds all its 32-byte entries. */
  lemma RootDirSectorsIsCeiling(entries: nat)
    requires entries * 32 + 511 < U16_MODULUS
    ensures var n := RootDirSectors(entries);
            entries * 32 <= n * 512 && (n == 0 || (n - 1) * 512 < entries * 32)
  {
  }

  /** Once the numerator wraps the root directory is given too few sectors:
      2048 entries (64 KiB of entries) get none at all. */
  lemma RootDirSectorsWraps()
    ensures RootDirSectors(2048) == 0
    ensures 2047 * 32 > RootDirSectors(2047) * 512
  {
  }

  /** Where `init` finds the table, the root directory and the data region. */
  datatype Layout = Layout(fatAddr: nat, rootDirAddr: nat, dataAddr: nat)

  /** `init`: verify both records, then lay out the regions one after another. */
  function Init(startAddr: nat, image: seq<Byte>): (r: Outcome<Layout, FatError>)
    requires startAddr < USIZE_MODULUS && BOOT_SECTOR_SIZE <= |image|
    ensures r.Ok? <==>
              image[0] == 0xEB && image[1] == 0x3C && image[2] == 0x90
              && Le16(image, 11) == 512 && image[13] == 4 && image[16] == 2
              && Le16(image, 22) == 20 && Le32(image, 32) == 0
              && (image[38] == 0x28 || image[38] == 0x29)
              && image[510] == 0x55 && image[511] == 0xAA
  {
    var bpb := ParseBpb(image);
    var ebr := ParseEbr(image);
    var vb := VerifyBpb(bpb);
    if vb.Panic? then Panic(vb.reason)
    else
      var ve := VerifyEbr(ebr);
      if ve.Panic? then Panic(ve.reason)
      else
        var fatAddr := (startAddr + ConvertSectorToBytes(bpb.reservedSectorCount)) % USIZE_MODULUS;
        var rdSectorNum := bpb.reservedSectorCount + bpb.tableCount * bpb.tableSize16;
        var rdAddr := (startAddr + ConvertSectorToBytes(rdSectorNum)) % USIZE_MODULUS;
        var rdSize := RootDirSectors(bpb.rootEntryCount);
        var dsAddr := (ConvertSectorToBytes(rdSize) + rdAddr) % USIZE_MODULUS;
        Ok(Layout(fatAddr, rdAddr, dsAddr))
  }

  /** Below the top of the address space (so that no sum wraps), the table
      starts after the reserved sectors, the root directory after the two
      20-sector tables, and the data region after the root directory. */
  lemma InitLayout(startAddr: nat, image: seq<Byte>)
    requires startAddr + 0x400_0000 < USIZE_MODULUS && BOOT_SECTOR_SIZE <= |image|
    requires Init(startAddr, image).Ok?
    ensures var l := Init(startAddr, image).value;
            && l.fatAddr == startAddr + Le16(image, 14) * BYTES_PER_SECTOR
            && l.rootDirAddr == l.fatAddr + 2 * BYTES_PER_FAT
            && l.dataAddr == l.rootDirAddr + RootDirSectors(Le16(image, 17)) * BYTES_PER_SECTOR
  {
    var bpb := ParseBpb(image);
    var reserved := bpb.reservedSectorCount;
    assert bpb.tableCount == 2 && bpb.tableSize16 == 20;
    assert reserved < U16_MODULUS;
    var rdSize := RootDirSectors(bpb.rootEntryCount);
    assert rdSize < 128;
    assert ConvertSectorToBytes(reserved) == reserved * 512;
    assert ConvertSectorToBytes(reserved + 40) == reserved * 512 + 2 * BYTES_PER_FAT;
    assert ConvertSectorToBytes(rdSize) == rdSize * 512;
  }

  // ---------------------------------------------------------------------
  // Table entries
  // ---------------------------------------------------------------------

  /** The 512-byte sector holding byte `offset` lies inside the table region. */
  predicate SectorInRegion(fat: seq<Byte>, offset: nat)
  {
    (offset / 512) * 512 + 512 <= |fat|
  }

  /** `read_fat`: the little-endian u16 at byte `offset % 512` of sector
      `offset / 512`, read through a 512-byte view of that sector; the high
      byte of the last byte offset lies past the view. */
  function ReadFat(fat: seq<Byte>, offset: nat): (r: Outcome<nat, FatError>)
    requires SectorInRegion(fat, offset)
    ensures r.Panic? <==> offset % 512 == 511
    ensures r.Ok? ==> offset + 1 < |fat| && r.value == Le16(fat, offset)
  {
    var sectorNum := offset / 512;
    var byteOffset := offset % 512;
    var base := sectorNum * BYTES_PER_SECTOR;
    if byteOffset + 1 >= 512 then Panic(IndexOutOfBounds)
    else Ok(Le16(fat, base + byteOffset))
  }

  /** Entries of a cluster are two bytes at an even offset, so reading one never
      runs past the sector view. */
  lemma ReadEntryNeverPanics(fat: seq<Byte>, cluster: nat)
    requires SectorInRegion(fat, cluster * 2)
    ensures ReadFat(fat, cluster * 2).Ok?
  {
  }

  /** `get_next_cluster`: follow a cluster's chain one step. */
  function GetNextCluster(fat: seq<Byte>, activeCluster: nat): (r: Outcome<Option<nat>, FatError>)
    requires SectorInRegion(fat, activeCluster * 2)
    ensures activeCluster * 2 + 1 < |fat|
    ensures var v := Le16(fat, activeCluster * 2);
            && (r == Panic(EmptyCluster) <==> v == 0)
            && (r == Panic(BadCluster) <==> v == 0xFFF7)
            && (r == Ok(None) <==> 0xFFF8 <= v)
            && (r.Ok? && r.value.Some? <==> v != 0 && v < 0xFFF7)
            && (r.Ok? && r.value.Some? ==> r.value.value == v)
  {
    ReadEntryNeverPanics(fat, activeCluster);
    var next := ReadFat(fat, activeCluster * 2).value;
    if next == 0 then Panic(EmptyCluster)
    else if next == 0xFFF7 then Panic(BadCluster)
    else if 0xFFF8 <= next then Ok(None)
    else Ok(Some(next))
  }

  /** `write_fat`: store `nextCluster` as the entry of `cluster` through a
      512-byte view of the table's first sector; a cluster whose entry lies past
      that view stops the kernel with an index panic before anything is written. */
  method WriteFat(fat: array<Byte>, cluster: nat, nextCluster: nat) returns (r: Outcome<(), FatError>)
    requires BYTES_PER_SECTOR <= fat.Length
    modifies fat
    ensures r.Panic? <==> 512 <= cluster * 2
    ensures r.Panic? ==> fat[..] == old(fat[..])
    ensures r.Ok? ==> Le16(fat[..], cluster * 2) == nextCluster % U16_MODULUS
    ensures r.Ok? ==> ReadFat(fat[..], cluster * 2) == Ok(nextCluster % U16_MODULUS)
    ensures forall j :: 0 <= j < fat.Length && j != cluster * 2 && j != cluster * 2 + 1 ==>
              fat[j] == old(fat[j])
  {
    var fatOffset := cluster * 2;
    if fatOffset >= 512 {
      return Panic(IndexOutOfBounds);
    }
    fat[fatOffset] := nextCluster % 256;
    fat[fatOffset + 1] := (nextCluster / 256) % 256;
    Le16OfSplit(fat[..], fatOffset, nextCluster);
    r := Ok(());
  }

  /** Bytes `i` and `i + 1` are both zero: the scan's test for a free entry. */
  predicate ZeroPair(s: seq<Byte>, i: nat)
    requires i + 1 < |s|
  {
    s[i] == 0 && s[i + 1] == 0
  }

  /** `find_free_cluster`: scan byte offsets `0 .. BYTES_PER_FAT / 2` of a
      512-byte view for the first two zero bytes in a row, claim them with
      0xFF 0xFF and return the byte offset. The scan steps one byte at a time,
      and reading the high byte of offset 511 is past the view, so when the
      first 512 bytes hold no zero pair the scan panics instead of returning
      None. */
  method FindFreeCluster(fat: array<Byte>) returns (r: Outcome<Option<nat>, FatError>)
    requires BYTES_PER_SECTOR <= fat.Length
    modifies fat
    ensures r != Ok(None)
    ensures r.Ok? ==>
              var i := r.value.value;
              && i < 511 && ZeroPair(old(fat[..]), i)
              && (forall j :: 0 <= j < i ==> !ZeroPair(old(fat[..]), j))
              && fat[i] == 0xFF && fat[i + 1] == 0xFF
              && (forall j :: 0 <= j < fat.Length && j != i && j != i + 1 ==> fat[j] == old(fat[j]))
    ensures r.Panic? ==>
              && r.reason == IndexOutOfBounds
              && (forall j :: 0 <= j < 511 ==> !ZeroPair(old(fat[..]), j))
              && fat[..] == old(fat[..])
  {
    var i := 0;
    while i < BYTES_PER_FAT / 2
      invariant 0 <= i <= 511
      invariant fat[..] == old(fat[..])
      invariant forall j :: 0 <= j < i ==> !ZeroPair(fat[..], j)
    {
      if i + 1 >= 512 {
        return Panic(IndexOutOfBounds);
      }
      if (fat[i + 1] as int) * 256 + fat[i] as int == 0 {
        fat[i] := 0xFF;
        fat[i + 1] := 0xFF;
        return Ok(Some(i));
      }
      i := i + 1;
    }
    // The bound 511 on `i` leaves the loop only through a return.
    assert false;
    r := Ok(None);
  }

  /** `get_sector_from_cluster`: `(cluster - 2) * 4 + addr` in wrapping usize
      arithmetic (a single reduction of the exact value gives the same result
      as wrapping at each step). */
  function GetSectorFromCluster(sectorAddr: nat, clusterNum: nat): (p: nat)
    requires sectorAddr < USIZE_MODULUS
    ensures p < USIZE_MODULUS
    ensures 2 <= clusterNum && sectorAddr + (clusterNum - 2) * 4 < USIZE_MODULUS ==>
              p == sectorAddr + (clusterNum - 2) * SECTORS_PER_CLUSTER
    ensures clusterNum < 2 ==> p == (sectorAddr + USIZE_MODULUS - (2 - clusterNum) * 4) % USIZE_MODULUS
  {
    (sectorAddr + (clusterNum - 2) * 4) % USIZE_MODULUS
  }

  /** The address moves by the sectors per cluster, 4, from one cluster to the
      next, although a cluster spans `BYTES_PER_CLUSTER` bytes: the 2048-byte
      regions of consecutive clusters overlap. */
  lemma ConsecutiveClustersOverlap(sectorAddr: nat, c: nat)
    requires 2 <= c && sectorAddr + (c - 1) * 4 < USIZE_MODULUS
    ensures GetSectorFromCluster(sectorAddr, c + 1) == GetSectorFromCluster(sectorAddr, c) + 4
    ensures GetSectorFromCluster(sectorAddr, c + 1) < GetSectorFromCluster(sectorAddr, c) + BYTES_PER_CLUSTER
  {
  }
}
