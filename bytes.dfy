/** Little-endian reads of packed on-disk fields, shared by the FAT16 driver
    (kernel/src/fs/fat.rs) and the ELF loader (kernel/src/multitask/elf.rs),
    which both read `u16`, `u32` and `u64` fields of packed structs from a
    byte image on x86-64. */
module LittleEndian {
  type Byte = b: int | 0 <= b < 256

  /** The `u16` whose low byte is `s[i]`. */
  function Le16(s: seq<Byte>, i: nat): (v: nat)
    requires i + 1 < |s|
    ensures v < 0x1_0000
  {
    (s[i + 1] as int) * 256 + s[i] as int
  }

  /** The `u32` whose low half is at `i`. */
  function Le32(s: seq<Byte>, i: nat): (v: nat)
    requires i + 3 < |s|
    ensures v < 0x1_0000_0000
    ensures v % 0x1_0000 == Le16(s, i) && v / 0x1_0000 == Le16(s, i + 2)
  {
    SplitAt(Le16(s, i + 2), Le16(s, i), 0x1_0000);
    Le16(s, i + 2) * 0x1_0000 + Le16(s, i)
  }

  /** The `u64` whose low half is at `i`. */
  function Le64(s: seq<Byte>, i: nat): (v: nat)
    requires i + 7 < |s|
    ensures v < 0x1_0000_0000_0000_0000
    ensures v % 0x1_0000_0000 == Le32(s, i) && v / 0x1_0000_0000 == Le32(s, i + 4)
  {
    SplitAt(Le32(s, i + 4), Le32(s, i), 0x1_0000_0000);
    Le32(s, i + 4) * 0x1_0000_0000 + Le32(s, i)
  }

  /** A number written as `hi` units of `m` plus `lo < m` has quotient `hi`
      and remainder `lo`. */
  lemma SplitAt(hi: nat, lo: nat, m: nat)
    requires lo < m
    ensures (hi * m + lo) % m == lo && (hi * m + lo) / m == hi
  {
    var x := hi * m + lo;
    var d := x / m - hi;
    assert d * m == lo - x % m by {
      assert x == (x / m) * m + x % m;
      assert (x / m) * m == d * m + hi * m;
    }
    MultipleBelowModulus(d, m);
  }

  /** The only multiple of `m` strictly between `-m` and `m` is zero. */
  lemma MultipleBelowModulus(d: int, m: nat)
    requires -(m as int) < d * m < m
    ensures d == 0
  {
    if d > 0 {
      AtLeastOnce(d, m);
    }
  }

  /** A positive number of copies of `m` is at least `m`. */
  lemma {:induction false} AtLeastOnce(d: nat, m: nat)
    requires d > 0
    ensures d * m >= m
  {
    if d > 1 {
      AtLeastOnce(d - 1, m);
      assert d * m == (d - 1) * m + m;
    }
  }
}
