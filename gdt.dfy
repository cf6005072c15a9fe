/** The global descriptor table (kernel/src/memory/gdt.rs): eight 64-bit slots,
    a null descriptor in slot 0, and descriptors packed as in Intel SDM Vol. 3A
    section 3.4.5 (segment descriptors) and section 7.2.3 (the 16-byte TSS
    descriptor of 64-bit mode). The address of the TSS is a parameter. */
module Gdt {
  import opened Wrappers

  const GDT_SLOTS: nat := 8
  /** `size_of::<TaskStateSegment>()` with `packed(4)`: 4 + 3*8 + 8 + 7*8 + 8 + 2 + 2. */
  const TSS_SIZE: bv64 := 104
  /** The selector `load_tss` hands to `ltr`. */
  const TSS_SELECTOR: nat := 0x28

  /** `GDTBits`. */
  datatype GdtBit = IsAccessed | IsWriteable | IsExecutable | IsCodeOrData | IsUserPage | IsPresent | Is64Bit

  /** The bits each flag ORs in. */
  function FlagBits(bit: GdtBit): bv64
  {
    match bit
    case IsAccessed => 0x0000_0100_0000_0000
    case IsWriteable => 0x0000_0200_0000_0000
    case IsExecutable => 0x0000_0800_0000_0000
    case IsCodeOrData => 0x0000_1000_0000_0000
    case IsUserPage => 0x0000_6000_0000_0000
    case IsPresent => 0x0000_8000_0000_0000
    case Is64Bit => 0x0020_0000_0000_0000
  }

  /** Bits 40, 41, 43-47 and 53: every bit a flag can set. */
  const ALL_FLAG_BITS: bv64 := 0x0020_FB00_0000_0000

  /** The OR of the flags' bits, accumulated left to right as `parse_flags` does. */
  function Flags(bits: seq<GdtBit>): bv64
  {
    if bits == [] then 0 else Flags(bits[..|bits| - 1]) | FlagBits(bits[|bits| - 1])
  }

  lemma FlagsSnoc(s: seq<GdtBit>, x: GdtBit)
    ensures Flags(s + [x]) == Flags(s) | FlagBits(x)
  {
    assert (s + [x])[..|s|] == s;
  }

  /** Accumulating a concatenation ORs the two accumulations. */
  lemma {:induction false} FlagsConcat(a: seq<GdtBit>, b: seq<GdtBit>)
    ensures Flags(a + b) == Flags(a) | Flags(b)
  {
    if b == [] {
      assert a + b == a;
    } else {
      var c := b[..|b| - 1];
      var x := b[|b| - 1];
      assert b == c + [x];
      assert a + b == (a + c) + [x];
      FlagsConcat(a, c);
      FlagsSnoc(a + c, x);
      FlagsSnoc(c, x);
    }
  }

  /** Every listed flag's bits are set in the result. */
  lemma FlagsHasMember(bits: seq<GdtBit>, i: nat)
    requires i < |bits|
    ensures Flags(bits) & FlagBits(bits[i]) == FlagBits(bits[i])
  {
    var x := bits[i];
    assert bits == (bits[..i] + [x]) + bits[i + 1..];
    FlagsConcat(bits[..i] + [x], bits[i + 1..]);
    FlagsSnoc(bits[..i], x);
  }

  /** No bit outside the flags' bits is ever set. */
  lemma {:induction false} FlagsHaveNoStrayBits(bits: seq<GdtBit>)
    ensures Flags(bits) & !ALL_FLAG_BITS == 0
  {
    if bits != [] {
      FlagsHaveNoStrayBits(bits[..|bits| - 1]);
    }
  }

  function IndexOf(s: seq<GdtBit>, x: GdtBit): (k: nat)
    requires x in s
    ensures k < |s| && s[k] == x
  {
    if s[0] == x then 0 else 1 + IndexOf(s[1..], x)
  }

  /** The accumulation of `a` adds nothing to that of `b` when `b` lists every
      flag of `a`. */
  lemma {:induction false} FlagsAbsorbed(a: seq<GdtBit>, b: seq<GdtBit>)
    requires forall i :: 0 <= i < |a| ==> a[i] in b
    ensures Flags(a) | Flags(b) == Flags(b)
  {
    if a != [] {
      var n := |a| - 1;
      FlagsAbsorbed(a[..n], b);
      FlagsHasMember(b, IndexOf(b, a[n]));
    }
  }

  /** The flags' order and repetitions do not matter: lists with the same
      flags give the same value. */
  lemma ParseFlagsIgnoresOrder(a: seq<GdtBit>, b: seq<GdtBit>)
    requires forall f :: f in a <==> f in b
    ensures Flags(a) == Flags(b)
  {
    FlagsAbsorbed(a, b);
    FlagsAbsorbed(b, a);
  }

  /** `GDTBits::parse_flags`: OR together the bits of each flag in turn. */
  method ParseFlags(requiredBits: seq<GdtBit>) returns (value: bv64)
    ensures value == Flags(requiredBits)
  {
    value := 0;
    var i := 0;
    while i < |requiredBits|
      invariant 0 <= i <= |requiredBits|
      invariant value == Flags(requiredBits[..i])
    {
      assert requiredBits[..i + 1] == requiredBits[..i] + [requiredBits[i]];
      FlagsSnoc(requiredBits[..i], requiredBits[i]);
      value := value | FlagBits(requiredBits[i]);
      i := i + 1;
    }
    assert requiredBits[..i] == requiredBits;
  }

  /** `Descriptor::generate`: limit bits 0-15 and 48-51 all set. */
  function Generate(entry: bv64): (r: bv64)
    ensures r & 0xFFFF == 0xFFFF && (r >> 48) & 0xF == 0xF
    ensures r & !0x000F_0000_0000_FFFF == entry & !0x000F_0000_0000_FFFF
  {
    entry | 0x0000_FFFF | (0xF << 48)
  }

  /** `Descriptor`: a one-slot code or data segment, or a two-slot system segment
      whose second slot `add_entry` fills with 0. */
  datatype Descriptor = UserSegment(value: bv64) | SystemSegment(low: bv64)

  /** The kernel code segment: present, long mode (bit 53), privilege 0 (bits
      45-46 clear) and executable (bit 43). */
  function KernelCodeSegment(): (d: Descriptor)
    ensures d == UserSegment(0x002F_9B00_0000_FFFF)
  {
    var t := [IsAccessed, IsWriteable, IsExecutable, IsCodeOrData, IsPresent, Is64Bit];
    assert t[..1][..0] == [];
    assert Flags(t[..1]) == 0x0000_0100_0000_0000;
    assert t[..2][..1] == t[..1];
    assert Flags(t[..2]) == 0x0000_0300_0000_0000;
    assert t[..3][..2] == t[..2];
    assert Flags(t[..3]) == 0x0000_0B00_0000_0000;
    assert t[..4][..3] == t[..3];
    assert Flags(t[..4]) == 0x0000_1B00_0000_0000;
    assert t[..5][..4] == t[..4];
    assert Flags(t[..5]) == 0x0000_9B00_0000_0000;
    assert t[..6][..5] == t[..5];
    assert t[..5] == t[..|t| - 1];
    UserSegment(Generate(Flags(t)))
  }

  /** The kernel data segment: as the kernel code segment but not executable. */
  function KernelDataSegment(): (d: Descriptor)
    ensures d == UserSegment(0x002F_9300_0000_FFFF)
  {
    var t := [IsAccessed, IsWriteable, IsCodeOrData, IsPresent, Is64Bit];
    assert t[..1][..0] == [];
    assert Flags(t[..1]) == 0x0000_0100_0000_0000;
    assert t[..2][..1] == t[..1];
    assert Flags(t[..2]) == 0x0000_0300_0000_0000;
    assert t[..3][..2] == t[..2];
    assert Flags(t[..3]) == 0x0000_1300_0000_0000;
    assert t[..4][..3] == t[..3];
    assert Flags(t[..4]) == 0x0000_9300_0000_0000;
    assert t[..5][..4] == t[..4];
    assert t[..4] == t[..|t| - 1];
    UserSegment(Generate(Flags(t)))
  }

  /** The user code segment: as the kernel code segment with privilege 3. */
  function UserCodeSegment(): (d: Descriptor)
    ensures d == UserSegment(0x002F_FB00_0000_FFFF)
  {
    var t := [IsAccessed, IsWriteable, IsExecutable, IsUserPage, IsCodeOrData, IsPresent, Is64Bit];
    assert t[..1][..0] == [];
    assert Flags(t[..1]) == 0x0000_0100_0000_0000;
    assert t[..2][..1] == t[..1];
    assert Flags(t[..2]) == 0x0000_0300_0000_0000;
    assert t[..3][..2] == t[..2];
    assert Flags(t[..3]) == 0x0000_0B00_0000_0000;
    assert t[..4][..3] == t[..3];
    assert Flags(t[..4]) == 0x0000_6B00_0000_0000;
    assert t[..5][..4] == t[..4];
    assert Flags(t[..5]) == 0x0000_7B00_0000_0000;
    assert t[..6][..5] == t[..5];
    assert Flags(t[..6]) == 0x0000_FB00_0000_0000;
    assert t[..7][..6] == t[..6];
    assert t[..6] == t[..|t| - 1];
    UserSegment(Generate(Flags(t)))
  }

  /** The user data segment: as the kernel data segment with privilege 3. */
  function UserDataSegment(): (d: Descriptor)
    ensures d == UserSegment(0x002F_F300_0000_FFFF)
  {
    var t := [IsAccessed, IsWriteable, IsCodeOrData, IsUserPage, IsPresent, Is64Bit];
    assert t[..1][..0] == [];
    assert Flags(t[..1]) == 0x0000_0100_0000_0000;
    assert t[..2][..1] == t[..1];
    assert Flags(t[..2]) == 0x0000_0300_0000_0000;
    assert t[..3][..2] == t[..2];
    assert Flags(t[..3]) == 0x0000_1300_0000_0000;
    assert t[..4][..3] == t[..3];
    assert Flags(t[..4]) == 0x0000_7300_0000_0000;
    assert t[..5][..4] == t[..4];
    assert Flags(t[..5]) == 0x0000_F300_0000_0000;
    assert t[..6][..5] == t[..5];
    assert t[..5] == t[..|t| - 1];
    UserSegment(Generate(Flags(t)))
  }

  /** `Descriptor::task_state_segment`, with the TSS's address as `base`: the
      low word of the 16-byte descriptor. The `assert!(high > 0)` can never fire,
      because the 0x89 access byte is always in the high half. */
  function TaskStateSegment(base: bv64): (r: Outcome<Descriptor, ()>)
    ensures r.Ok? && r.value.SystemSegment?
    ensures r.value.low & 0xFFFF == (TSS_SIZE - 1) & 0xFFFF
    ensures (r.value.low >> 16) & 0xFFFF == base & 0xFFFF
    ensures (r.value.low >> 32) & 0xFF == (base >> 16) & 0xFF
    ensures (r.value.low >> 40) & 0xFF == 0x89 | ((base >> 24) & 0xFF)
  {
    var limit: bv64 := TSS_SIZE - 1;
    var flag: bv64 := 0x89;
    var d0 := limit & 0x000F_0000;
    var d1 := d0 | ((flag << 8) & 0x00F0_FF00);
    var d2 := d1 | ((base >> 16) & 0x0000_00FF);
    var d3 := d2 | (base & 0xFF00_0000);
    var d4 := d3 << 32;
    var d5 := d4 | (base << 16);
    var descriptor := d5 | (limit & 0x0000_FFFF);
    var high := descriptor >> 32;
    if high > 0 then Ok(SystemSegment(descriptor)) else Panic(())
  }

  /** The low word of a 64-bit TSS descriptor as section 7.2.3 lays it out:
      limit 0-15, base 0-23, type 9 with the present bit, limit 16-19, and
      base 24-31 in the top byte. */
  function IntendedTssLow(base: bv64, limit: bv64): bv64
  {
    (limit & 0xFFFF) | ((base & 0xFF_FFFF) << 16) | (0x89 << 40)
    | ((limit & 0xF_0000) << 32) | ((base & 0xFF00_0000) << 32)
  }

  /** For a TSS in the low 16 MiB the packing is the architected one. */
  lemma TssDescriptorBelow16MiB(base: bv64)
    requires base < 0x100_0000
    ensures TaskStateSegment(base).value.low == IntendedTssLow(base, TSS_SIZE - 1)
  {
  }

  /** `base << 16` ORs base bits 24-31 into the access byte: a TSS at 32 MiB
      gets type 0xB, a busy TSS, which `ltr` refuses. */
  lemma TssDescriptorAbove16MiB()
    ensures (TaskStateSegment(0x200_0000).value.low >> 40) & 0xFF == 0x8B
    ensures TaskStateSegment(0x200_0000).value.low != IntendedTssLow(0x200_0000, TSS_SIZE - 1)
  {
  }

  /** `GDTPointer`: the value `lgdt` loads. */
  datatype GdtPointer = GdtPointer(limit: nat, base: nat)

  /** `GlobalDescriptorTable`: `table[..len]` are the descriptors in use. */
  class GlobalDescriptorTable {
    const table: array<bv64>
    var len: nat

    ghost predicate Valid()
      reads this
    {
      table.Length == GDT_SLOTS && 1 <= len <= GDT_SLOTS
    }

    /** `new`: the null descriptor only. */
    constructor ()
      ensures Valid() && fresh(table)
      ensures len == 1 && table[..] == seq(GDT_SLOTS, _ => 0)
    {
      table := new bv64[GDT_SLOTS](_ => 0);
      len := 1;
    }

    /** `pointer`: `lgdt`'s limit is the table's size in bytes less one. */
    function Pointer(tableAddr: nat): (p: GdtPointer)
      requires Valid()
      reads this
      ensures p.limit == len * 8 - 1 && p.limit < 64 && p.base == tableAddr
      ensures (p.limit + 1) / 8 == len
    {
      GdtPointer((len * 8 - 1) % 0x1_0000, tableAddr)
    }

    /** `add_entry`: a segment takes the next slot, a system segment the next
        two (its low word, then 0). Writing past the eighth slot is an index
        panic, which stops the kernel after the writes already made. */
    method AddEntry(entry: Descriptor) returns (ok: bool)
      requires Valid()
      modifies this, table
      ensures Valid()
      ensures entry.UserSegment? ==>
                && (ok <==> old(len) < GDT_SLOTS)
                && (ok ==> len == old(len) + 1 && table[..] == old(table[..])[old(len) := entry.value])
                && (!ok ==> len == old(len) && table[..] == old(table[..]))
    ensures entry.SystemSegment? ==>
                && (ok <==> old(len) + 1 < GDT_SLOTS)
                && (ok ==> len == old(len) + 2
                           && table[..] == old(table[..])[old(len) := entry.low][old(len) + 1 := 0])
                && (!ok && old(len) + 1 == GDT_SLOTS ==>
                      len == GDT_SLOTS && table[..] == old(table[..])[old(len) := entry.low])
                && (!ok && old(len) == GDT_SLOTS ==> len == old(len) && table[..] == old(table[..]))
    {
      match entry
      case UserSegment(value) =>
        if len >= table.Length {
          return false;
        }
        table[len] := value;
        len := len + 1;
        ok := true;
      case SystemSegment(low) =>
        if len >= table.Length {
          return false;
        }
        table[len] := low;
        len := len + 1;
        if len >= table.Length {
          return false;
        }
        table[len] := 0;
        len := len + 1;
        ok := true;
    }

    /** `initalise`: the four segments and the TSS descriptor, in that order,
        so that on the fresh table the TSS sits in slot 5, selector 0x28. */
    method Initalise(tssBase: bv64) returns (ok: bool)
      requires Valid()
      modifies this, table
      ensures Valid()
      ensures ok <==> old(len) <= 2
      ensures ok ==>
                && len == old(len) + 6
                && table[..old(len)] == old(table[..len])
                && table[old(len)..len] == [
                     KernelCodeSegment().value, KernelDataSegment().value,
                     UserCodeSegment().value, UserDataSegment().value,
                     TaskStateSegment(tssBase).value.low, 0]
    {
      var l0 := len;
      ghost var t0 := table[..];
      ok := AddEntry(KernelCodeSegment());
      if !ok { return; }
      ok := AddEntry(KernelDataSegment());
      if !ok { return; }
      ok := AddEntry(UserCodeSegment());
      if !ok { return; }
      ok := AddEntry(UserDataSegment());
      if !ok { return; }
      ok := AddEntry(TaskStateSegment(tssBase).value);
      if !ok { return; }
      assert table[..l0] == t0[..l0];
    }
  }

  /** On the fresh table `initalise` leaves seven slots in use and the TSS
      where `load_tss` looks for it. */
  method InitaliseFresh(tssBase: bv64) returns (gdt: GlobalDescriptorTable)
    ensures gdt.Valid() && gdt.len == 7
    ensures gdt.table[TSS_SELECTOR / 8] == TaskStateSegment(tssBase).value.low
    ensures gdt.table[0] == 0
    ensures gdt.Pointer(0).limit == 55
  {
    gdt := new GlobalDescriptorTable();
    var ok := gdt.Initalise(tssBase);
    assert ok;
    assert gdt.table[5] == gdt.table[1..7][4];
  }
}
