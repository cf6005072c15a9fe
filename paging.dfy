/** The four-level page-table mapper (kernel/src/memory/paging.rs), following
    x86-64 4-level paging (Intel SDM Vol. 3A, section 4.5). Tables are kept as
    a map from the physical address of each table frame to its 512 entries;
    entries and addresses are unbounded integers below 2^64 and the bit masks
    of the source are written arithmetically: `x & 0x000f_ffff_ffff_f000` is
    `x % 2^52 - x % 2^12` and `(v >> s) & 0x1FF` is `(v / 2^s) % 512`. */
module Paging {
  import opened Wrappers
  import opened PageFrames

  const TABLE_ENTRIES: nat := 512
  /** Physical addresses handed to table frames must survive the 48-bit mask
      the walk applies to entries. */
  const TABLE_ADDRESS_LIMIT: nat := 0x1_0000_0000_0000

  /** `Page::new(p_addr, flags)`: the address bits 12..51 of `p_addr` with the
      present, writable and user bits (0b111) set. The flag list is ignored. */
  function NewPage(p: int): (e: int)
    requires 0 <= p
    ensures 0 <= e < USIZE_MODULUS
    ensures e % 4096 == 7
  {
    (p % 0x10_0000_0000_0000 - p % 4096) + 7
  }

  /** `get_physical_address`: bits 12..51 of the entry. */
  function PhysicalAddress(e: int): (a: int)
    ensures a % 4096 == 0 && 0 <= a < 0x10_0000_0000_0000
  {
    e % 0x10_0000_0000_0000 - e % 4096
  }

  /** The table an entry points to: the walk masks with 0xFFFF_FFFF_F000,
      i.e. bits 12..47 only. */
  function TableAddress(e: int): (a: int)
    ensures a % 4096 == 0 && 0 <= a < TABLE_ADDRESS_LIMIT
  {
    e % TABLE_ADDRESS_LIMIT - e % 4096
  }

  /** `is_unused`: an entry of 0 maps nothing and points at no table. */
  predicate IsUnused(e: int): (r: bool)
    ensures r ==> PhysicalAddress(e) == 0 && TableAddress(e) == 0
  {
    e == 0
  }

  /** `set_to_unused`: the entry becomes 0. */
  function SetToUnused(e: int): (r: int)
    ensures IsUnused(r)
  {
    0
  }

  /** An entry made by `Page::new` is never unused. */
  lemma NewPageIsUsed(p: int)
    requires 0 <= p
    ensures !IsUnused(NewPage(p))
  {
  }

  /** Reading the physical address of a fresh entry gives back the masked
      address, which is the address itself when it is page-aligned and below
      2^52. */
  lemma PhysicalAddressOfNewPage(p: int)
    requires 0 <= p
    ensures PhysicalAddress(NewPage(p)) == p % 0x10_0000_0000_0000 - p % 4096
    ensures p % 4096 == 0 && p < 0x10_0000_0000_0000 ==> PhysicalAddress(NewPage(p)) == p
  {
  }

  /** An aligned table frame below 2^48 is found again through its entry. */
  lemma TableAddressOfNewPage(a: int)
    requires 0 <= a < TABLE_ADDRESS_LIMIT && a % 4096 == 0
    ensures TableAddress(NewPage(a)) == a
  {
  }

  /** The table index used at `level` (0 for P1 up to 3 for P4):
      `(v >> (level * 9 + 12)) & 0x1FF`. */
  function Index(v: int, level: nat): (i: int)
    requires 0 <= v && level <= 3
    ensures 0 <= i < TABLE_ENTRIES
  {
    match level
    case 0 => (v / 0x1000) % 512
    case 1 => (v / 0x20_0000) % 512
    case 2 => (v / 0x4000_0000) % 512
    case _ => (v / 0x80_0000_0000) % 512
  }

  /** The P4, P3 and P2 indices of `v`, the first `k` of them. */
  function Prefix(v: int, k: nat): (q: seq<int>)
    requires 0 <= v && k <= 3
    ensures |q| == k
  {
    [Index(v, 3), Index(v, 2), Index(v, 1)][..k]
  }

  lemma PrefixStep(v: int, k: nat)
    requires 0 <= v && k < 3
    ensures Prefix(v, k + 1) == Prefix(v, k) + [Index(v, 3 - k)]
  {
  }

  /** Two addresses are in the same virtual page when all four table indices
      agree. */
  predicate SamePage(a: int, b: int)
    requires 0 <= a && 0 <= b
  {
    && Index(a, 3) == Index(b, 3) && Index(a, 2) == Index(b, 2)
    && Index(a, 1) == Index(b, 1) && Index(a, 0) == Index(b, 0)
  }

  /** The virtual page number modulo 2^36: the part of `v` the four
      indices select. */
  function PageNumber(a: int): (n: int)
    requires 0 <= a
    ensures 0 <= n < 0x10_0000_0000
  {
    (a / 4096) % 0x10_0000_0000
  }

  lemma Div4096Then512(a: int)
    requires 0 <= a
    ensures a / 0x20_0000 == (a / 0x1000) / 0x200
    ensures a / 0x4000_0000 == (a / 0x1000) / 0x4_0000
    ensures a / 0x80_0000_0000 == (a / 0x1000) / 0x800_0000
  {
    var x := a / 0x1000;
    assert a == 0x1000 * x + a % 0x1000;
    var q1, q2, q3 := x / 0x200, x / 0x4_0000, x / 0x800_0000;
    assert x == 0x200 * q1 + x % 0x200;
    assert a == 0x20_0000 * q1 + (0x1000 * (x % 0x200) + a % 0x1000);
    assert x == 0x4_0000 * q2 + x % 0x4_0000;
    assert a == 0x4000_0000 * q2 + (0x1000 * (x % 0x4_0000) + a % 0x1000);
    assert x == 0x800_0000 * q3 + x % 0x800_0000;
    assert a == 0x80_0000_0000 * q3 + (0x1000 * (x % 0x800_0000) + a % 0x1000);
  }

  /** Adding a multiple of 512 moves the quotient by 512 that multiple and
      keeps the remainder. */
  lemma Shift512(c: int, y: int)
    requires 0 <= c && 0 <= y
    ensures (512 * c + y) / 512 == c + y / 512 && (512 * c + y) % 512 == y % 512
  {
    var q, r := y / 512, y % 512;
    assert 512 * c + y == 512 * (c + q) + r;
  }

  lemma LowDigits(x: int)
    requires 0 <= x
    ensures x % 512 == (x % 0x10_0000_0000) % 512
    ensures (x / 0x200) % 512 == ((x % 0x10_0000_0000) / 0x200) % 512
    ensures (x / 0x4_0000) % 512 == ((x % 0x10_0000_0000) / 0x4_0000) % 512
    ensures (x / 0x800_0000) % 512 == ((x % 0x10_0000_0000) / 0x800_0000) % 512
  {
    var k := x / 0x10_0000_0000;
    var n := x % 0x10_0000_0000;
    Div512Then512(x);
    Div512Then512(n);
    assert x == 512 * (0x800_0000 * k) + n;
    Shift512(0x800_0000 * k, n);
    assert x / 0x200 == 512 * (0x4_0000 * k) + n / 0x200;
    Shift512(0x4_0000 * k, n / 0x200);
    assert x / 0x4_0000 == 512 * (0x200 * k) + n / 0x4_0000;
    Shift512(0x200 * k, n / 0x4_0000);
    assert x / 0x800_0000 == 512 * k + n / 0x800_0000;
    Shift512(k, n / 0x800_0000);
  }

  lemma IndexOfPageNumber(a: int)
    requires 0 <= a
    ensures Index(a, 0) == PageNumber(a) % 512
    ensures Index(a, 1) == (PageNumber(a) / 0x200) % 512
    ensures Index(a, 2) == (PageNumber(a) / 0x4_0000) % 512
    ensures Index(a, 3) == (PageNumber(a) / 0x800_0000) % 512
  {
    Div4096Then512(a);
    LowDigits(a / 4096);
  }

  lemma Div512Then512(x: int)
    requires 0 <= x
    ensures x / 0x4_0000 == (x / 0x200) / 0x200
    ensures x / 0x800_0000 == (x / 0x4_0000) / 0x200
  {
    var q1 := x / 0x200;
    assert x == 0x200 * q1 + x % 0x200;
    var q2 := q1 / 0x200;
    assert q1 == 0x200 * q2 + q1 % 0x200;
    assert x == 0x4_0000 * q2 + (0x200 * (q1 % 0x200) + x % 0x200);
    var p1 := x / 0x4_0000;
    assert x == 0x4_0000 * p1 + x % 0x4_0000;
    var p2 := p1 / 0x200;
    assert p1 == 0x200 * p2 + p1 % 0x200;
    assert x == 0x800_0000 * p2 + (0x4_0000 * (p1 % 0x200) + x % 0x4_0000);
  }

  /** Numbers below 2^36 with the same four base-512 digits are equal. */
  lemma SameDigitsSameNumber(a: int, b: int)
    requires 0 <= a < 0x10_0000_0000 && 0 <= b < 0x10_0000_0000
    requires a % 512 == b % 512 && (a / 0x200) % 512 == (b / 0x200) % 512
    requires (a / 0x4_0000) % 512 == (b / 0x4_0000) % 512 && (a / 0x800_0000) % 512 == (b / 0x800_0000) % 512
    ensures a == b
  {
    Div512Then512(a);
    Div512Then512(b);
    assert a / 0x800_0000 == b / 0x800_0000;
    assert a / 0x4_0000 == b / 0x4_0000;
    assert a / 0x200 == b / 0x200;
  }

  /** Equal indices at all four levels are equal page numbers. */
  lemma SamePageIsPageNumber(a: int, b: int)
    requires 0 <= a && 0 <= b
    ensures SamePage(a, b) <==> PageNumber(a) == PageNumber(b)
  {
    IndexOfPageNumber(a);
    IndexOfPageNumber(b);
    if SamePage(a, b) {
      SameDigitsSameNumber(PageNumber(a), PageNumber(b));
    }
  }

  lemma PageNumberAfter(v: int, i: nat)
    requires 0 <= v
    ensures PageNumber(v + i * 4096) == (v / 4096 + i) % 0x10_0000_0000
  {
    assert v + i * 4096 == 4096 * (v / 4096 + i) + v % 4096;
  }

  lemma DistinctResidues(x: int, i: nat, j: nat)
    requires 0 <= x && i < j < 0x10_0000_0000
    ensures (x + i) % 0x10_0000_0000 != (x + j) % 0x10_0000_0000
  {
    var q1, q2 := (x + i) / 0x10_0000_0000, (x + j) / 0x10_0000_0000;
    assert x + i == 0x10_0000_0000 * q1 + (x + i) % 0x10_0000_0000;
    assert x + j == 0x10_0000_0000 * q2 + (x + j) % 0x10_0000_0000;
  }

  lemma ConsecutivePagesDiffer(v: int, i: nat, j: nat)
    requires 0 <= v && i < j < 0x10_0000_0000
    ensures !SamePage(v + i * 4096, v + j * 4096)
  {
    SamePageIsPageNumber(v + i * 4096, v + j * 4096);
    PageNumberAfter(v, i);
    PageNumberAfter(v, j);
    DistinctResidues(v / 4096, i, j);
  }

  function EmptyTable(): (t: seq<int>)
    ensures |t| == TABLE_ENTRIES && forall i :: 0 <= i < |t| ==> t[i] == 0
  {
    seq(TABLE_ENTRIES, _ => 0)
  }

  /** Every slot names a table of 512 entries. */
  ghost predicate SlotsWellFormed(tables: map<int, seq<int>>, slots: map<seq<int>, int>)
  {
    forall q :: q in slots ==> slots[q] in tables && |tables[slots[q]]| == TABLE_ENTRIES
  }

  /** The paths form a tree of depth at most 3 rooted at `root`: closed
      under prefixes, with indices below 512, and no two paths reach the
      same table. */
  ghost predicate SlotsShaped(slots: map<seq<int>, int>, root: int)
  {
    && [] in slots && slots[[]] == root
    && (forall q :: q in slots ==> |q| <= 3)
    && (forall q1, q2 :: q1 in slots && q2 in slots && q1 != q2 ==> slots[q1] != slots[q2])
    && (forall q, i :: q + [i] in slots ==> q in slots && 0 <= i < TABLE_ENTRIES)
  }

  /** Every table is an aligned frame at or below `limit`, and below 2^48. */
  ghost predicate FramesBelow(tables: map<int, seq<int>>, limit: int)
  {
    forall t :: t in tables ==> t % 4096 == 0 && 0 <= t <= limit && t < TABLE_ADDRESS_LIMIT
  }

  /** An entry of a P4, P3 or P2 table is used exactly when its path goes on. */
  ghost predicate EntriesUsedOnPaths(tables: map<int, seq<int>>, slots: map<seq<int>, int>)
    requires SlotsWellFormed(tables, slots)
  {
    forall q, i :: q in slots && |q| < 3 && 0 <= i < TABLE_ENTRIES ==>
      (tables[slots[q]][i] != 0 <==> q + [i] in slots)
  }

  /** A used entry of a P4, P3 or P2 table points, through the 48-bit mask,
      at the table one level down its path. */
  ghost predicate EntriesPointDown(tables: map<int, seq<int>>, slots: map<seq<int>, int>)
    requires SlotsWellFormed(tables, slots)
  {
    forall q, i :: q in slots && |q| < 3 && 0 <= i < TABLE_ENTRIES && q + [i] in slots ==>
      TableAddress(tables[slots[q]][i]) == slots[q + [i]]
  }

  /** The paging hierarchy. `slots` gives, for each index path from the root
      of length 0 (P4) to 3 (P1), the table reached along it. */
  ghost predicate TablesValid(tables: map<int, seq<int>>, slots: map<seq<int>, int>, root: int, limit: int)
  {
    && SlotsWellFormed(tables, slots)
    && SlotsShaped(slots, root)
    && FramesBelow(tables, limit)
    && EntriesUsedOnPaths(tables, slots)
    && EntriesPointDown(tables, slots)
  }

  /** The entry at index `i` of the P1 table on path `q`; 0 when there is
      no such table. */
  ghost function Leaf(tables: map<int, seq<int>>, slots: map<seq<int>, int>, q: seq<int>, i: int): int
    requires SlotsWellFormed(tables, slots)
  {
    if |q| == 3 && q in slots && 0 <= i < TABLE_ENTRIES then tables[slots[q]][i] else 0
  }

  /** The P1 entry that translates `v`, or 0 when the walk meets an unused
      entry first. */
  ghost function Translate(tables: map<int, seq<int>>, slots: map<seq<int>, int>, v: int): int
    requires SlotsWellFormed(tables, slots) && 0 <= v
  {
    Leaf(tables, slots, Prefix(v, 3), Index(v, 0))
  }

  /** Two addresses share a page exactly when they reach the same P1 entry. */
  lemma SamePageIsSameLeaf(a: int, b: int)
    requires 0 <= a && 0 <= b
    ensures SamePage(a, b) <==> Prefix(a, 3) == Prefix(b, 3) && Index(a, 0) == Index(b, 0)
  {
    assert Prefix(a, 3) == [Index(a, 3), Index(a, 2), Index(a, 1)];
    assert Prefix(b, 3) == [Index(b, 3), Index(b, 2), Index(b, 1)];
    if Prefix(a, 3) == Prefix(b, 3) {
      assert Prefix(a, 3)[0] == Prefix(b, 3)[0] && Prefix(a, 3)[1] == Prefix(b, 3)[1];
      assert Prefix(a, 3)[2] == Prefix(b, 3)[2];
    }
  }

  /** Of all P1 entries, only the one at (`q`, `i`) differs, and it holds `e`. */
  ghost predicate LeavesUpdated(t1: map<int, seq<int>>, s1: map<seq<int>, int>,
                                t0: map<int, seq<int>>, s0: map<seq<int>, int>, q: seq<int>, i: int, e: int)
    requires SlotsWellFormed(t1, s1) && SlotsWellFormed(t0, s0)
  {
    forall q', i' :: Leaf(t1, s1, q', i') == if q' == q && i' == i then e else Leaf(t0, s0, q', i')
  }

  /** No P1 entry differs. */
  ghost predicate LeavesKept(t1: map<int, seq<int>>, s1: map<seq<int>, int>,
                             t0: map<int, seq<int>>, s0: map<seq<int>, int>)
    requires SlotsWellFormed(t1, s1) && SlotsWellFormed(t0, s0)
  {
    forall q', i' :: Leaf(t1, s1, q', i') == Leaf(t0, s0, q', i')
  }

  /** Every address in the page of `v` translates through `e`, and every
      other address as before. */
  ghost predicate MapsPage(t1: map<int, seq<int>>, s1: map<seq<int>, int>,
                           t0: map<int, seq<int>>, s0: map<seq<int>, int>, v: int, e: int)
    requires SlotsWellFormed(t1, s1) && SlotsWellFormed(t0, s0) && 0 <= v
  {
    forall v' :: 0 <= v' ==> Translate(t1, s1, v') == if SamePage(v', v) then e else Translate(t0, s0, v')
  }

  /** Changing the one P1 entry of `v`'s page is mapping that page. */
  lemma LeafUpdateMapsPage(t1: map<int, seq<int>>, s1: map<seq<int>, int>,
                           t0: map<int, seq<int>>, s0: map<seq<int>, int>, v: int, e: int)
    requires SlotsWellFormed(t1, s1) && SlotsWellFormed(t0, s0) && 0 <= v
    requires LeavesUpdated(t1, s1, t0, s0, Prefix(v, 3), Index(v, 0), e)
    ensures MapsPage(t1, s1, t0, s0, v, e)
  {
    forall v' | 0 <= v'
      ensures Translate(t1, s1, v') == if SamePage(v', v) then e else Translate(t0, s0, v')
    {
      SamePageIsSameLeaf(v', v);
    }
  }

  /** The walk the processor does: from the table at `t`, follow the entry
      at the current level's index down to P1; an unused entry ends the walk
      with 0. */
  ghost function Walk(tables: map<int, seq<int>>, slots: map<seq<int>, int>, root: int, limit: int,
                      t: int, v: int, level: nat): int
    requires TablesValid(tables, slots, root, limit) && 0 <= v && level <= 3
    requires Prefix(v, 3 - level) in slots && slots[Prefix(v, 3 - level)] == t
    decreases level
  {
    var e := tables[t][Index(v, level)];
    if level == 0 then e
    else if e == 0 then 0
    else
      PrefixStep(v, 3 - level);
      Walk(tables, slots, root, limit, TableAddress(e), v, level - 1)
  }

  /** The slot abstraction is the processor's walk: following entries from
      the root gives the P1 entry `Translate` names. */
  lemma {:induction false} WalkIsTranslate(tables: map<int, seq<int>>, slots: map<seq<int>, int>, root: int, limit: int,
                                           t: int, v: int, level: nat)
    requires TablesValid(tables, slots, root, limit) && 0 <= v && level <= 3
    requires Prefix(v, 3 - level) in slots && slots[Prefix(v, 3 - level)] == t
    ensures Walk(tables, slots, root, limit, t, v, level) == Translate(tables, slots, v)
    decreases level
  {
    var q := Prefix(v, 3 - level);
    var e := tables[t][Index(v, level)];
    if level == 0 {
    } else {
      PrefixStep(v, 3 - level);
      if e == 0 {
        NoSlotBelowUnused(tables, slots, root, limit, v, 3 - level);
      } else {
        WalkIsTranslate(tables, slots, root, limit, TableAddress(e), v, level - 1);
      }
    }
  }

  /** When the entry on the path of `v` at depth `k` is unused, no deeper
      prefix of `v` has a table, so `v` translates to 0. */
  lemma NoSlotBelowUnused(tables: map<int, seq<int>>, slots: map<seq<int>, int>, root: int, limit: int,
                          v: int, k: nat)
    requires TablesValid(tables, slots, root, limit) && 0 <= v && k < 3
    requires Prefix(v, k) in slots && tables[slots[Prefix(v, k)]][Index(v, 3 - k)] == 0
    ensures Translate(tables, slots, v) == 0
  {
    PrefixStep(v, k);
    assert Prefix(v, k + 1) !in slots;
    if k < 2 {
      PrefixStep(v, k + 1);
      assert Prefix(v, k + 2) !in slots;
      if k < 1 {
        PrefixStep(v, k + 2);
      }
    }
  }

  /** Hanging a fresh zero table at `idx` of the table on path `q` keeps the
      hierarchy valid with the new frame as the limit. */
  lemma AddTableKeepsValid(tables: map<int, seq<int>>, slots: map<seq<int>, int>, root: int, limit: int,
                           q: seq<int>, idx: int, a: int)
    requires TablesValid(tables, slots, root, limit)
    requires q in slots && |q| < 3 && 0 <= idx < TABLE_ENTRIES && tables[slots[q]][idx] == 0
    requires a % 4096 == 0 && limit < a < TABLE_ADDRESS_LIMIT
    ensures var t := slots[q];
            TablesValid(tables[t := tables[t][idx := NewPage(a)]][a := EmptyTable()], slots[q + [idx] := a], root, a)
  {
    var t := slots[q];
    var tables' := tables[t := tables[t][idx := NewPage(a)]][a := EmptyTable()];
    var slots' := slots[q + [idx] := a];
    assert q + [idx] !in slots;
    assert a !in tables;
    AddSlotKeepsShape(slots, root, q, idx, a);
    AddTableKeepsUse(tables, slots, q, idx, a);
    AddTableKeepsPointers(tables, slots, q, idx, a);
  }

  /** Appending `idx` to `q` is the only way to reach the new path. */
  lemma AppendIsNewPath(q: seq<int>, idx: int, q1: seq<int>, i: int)
    ensures q1 + [i] == q + [idx] <==> q1 == q && i == idx
  {
    if q1 + [i] == q + [idx] {
      assert (q1 + [i])[..|q1|] == q1 && (q1 + [i])[|q1|] == i;
      assert (q + [idx])[..|q|] == q && (q + [idx])[|q|] == idx;
    }
  }

  lemma AddSlotKeepsShape(slots: map<seq<int>, int>, root: int, q: seq<int>, idx: int, a: int)
    requires SlotsShaped(slots, root)
    requires q in slots && |q| < 3 && 0 <= idx < TABLE_ENTRIES && q + [idx] !in slots
    requires forall q1 :: q1 in slots ==> slots[q1] != a
    ensures SlotsShaped(slots[q + [idx] := a], root)
  {
    var slots' := slots[q + [idx] := a];
    assert q + [idx] != [];
    forall q1, i | q1 + [i] in slots'
      ensures q1 in slots' && 0 <= i < TABLE_ENTRIES
    {
      AppendIsNewPath(q, idx, q1, i);
    }
  }

  lemma AddTableKeepsUse(tables: map<int, seq<int>>, slots: map<seq<int>, int>, q: seq<int>, idx: int, a: int)
    requires SlotsWellFormed(tables, slots) && EntriesUsedOnPaths(tables, slots)
    requires forall q1, q2 :: q1 in slots && q2 in slots && q1 != q2 ==> slots[q1] != slots[q2]
    requires forall q1, i :: q1 + [i] in slots ==> q1 in slots
    requires q in slots && |q| < 3 && 0 <= idx < TABLE_ENTRIES && tables[slots[q]][idx] == 0
    requires a !in tables && 0 <= a
    ensures var t := slots[q];
            var tables' := tables[t := tables[t][idx := NewPage(a)]][a := EmptyTable()];
            SlotsWellFormed(tables', slots[q + [idx] := a]) && EntriesUsedOnPaths(tables', slots[q + [idx] := a])
  {
    var t := slots[q];
    var tables' := tables[t := tables[t][idx := NewPage(a)]][a := EmptyTable()];
    var slots' := slots[q + [idx] := a];
    var n := q + [idx];
    forall q1, i | q1 in slots' && |q1| < 3 && 0 <= i < TABLE_ENTRIES
      ensures tables'[slots'[q1]][i] != 0 <==> q1 + [i] in slots'
    {
      AppendIsNewPath(q, idx, q1, i);
      if q1 == n {
        assert q1 + [i] !in slots;
      } else if q1 != q {
        assert slots'[q1] == slots[q1] != t;
      }
    }
  }

  lemma AddTableKeepsPointers(tables: map<int, seq<int>>, slots: map<seq<int>, int>, q: seq<int>, idx: int, a: int)
    requires SlotsWellFormed(tables, slots) && EntriesPointDown(tables, slots)
    requires forall q1, q2 :: q1 in slots && q2 in slots && q1 != q2 ==> slots[q1] != slots[q2]
    requires forall q1, i :: q1 + [i] in slots ==> q1 in slots
    requires q in slots && |q| < 3 && 0 <= idx < TABLE_ENTRIES && q + [idx] !in slots
    requires a !in tables && 0 <= a < TABLE_ADDRESS_LIMIT && a % 4096 == 0
    ensures var t := slots[q];
            var tables' := tables[t := tables[t][idx := NewPage(a)]][a := EmptyTable()];
            SlotsWellFormed(tables', slots[q + [idx] := a]) && EntriesPointDown(tables', slots[q + [idx] := a])
  {
    var t := slots[q];
    var tables' := tables[t := tables[t][idx := NewPage(a)]][a := EmptyTable()];
    var slots' := slots[q + [idx] := a];
    var n := q + [idx];
    forall q1, i | q1 in slots' && |q1| < 3 && 0 <= i < TABLE_ENTRIES && q1 + [i] in slots'
      ensures TableAddress(tables'[slots'[q1]][i]) == slots'[q1 + [i]]
    {
      AppendIsNewPath(q, idx, q1, i);
      if q1 + [i] == n {
        TableAddressOfNewPage(a);
      } else if q1 == n {
        // q1 + [i] would be a path under a table that is not yet there.
        assert false;
      } else {
        assert slots'[q1] == slots[q1];
        assert slots[q1] == t ==> q1 == q;
      }
    }
  }

  /** The fresh zero table changes no P1 entry: paths that used to stop at
      the unused entry now stop in the new table. */
  lemma AddTableKeepsLeaves(tables: map<int, seq<int>>, slots: map<seq<int>, int>, root: int, limit: int,
                            q: seq<int>, idx: int, a: int)
    requires TablesValid(tables, slots, root, limit)
    requires q in slots && |q| < 3 && 0 <= idx < TABLE_ENTRIES && tables[slots[q]][idx] == 0
    requires a % 4096 == 0 && limit < a < TABLE_ADDRESS_LIMIT
    ensures var t := slots[q];
            var tables' := tables[t := tables[t][idx := NewPage(a)]][a := EmptyTable()];
            SlotsWellFormed(tables', slots[q + [idx] := a])
            && LeavesKept(tables', slots[q + [idx] := a], tables, slots)
  {
    var t := slots[q];
    var tables' := tables[t := tables[t][idx := NewPage(a)]][a := EmptyTable()];
    var slots' := slots[q + [idx] := a];
    var n := q + [idx];
    AddTableKeepsValid(tables, slots, root, limit, q, idx, a);
    forall q', i' ensures Leaf(tables', slots', q', i') == Leaf(tables, slots, q', i')
    {
      if |q'| == 3 && q' in slots && 0 <= i' < TABLE_ENTRIES {
        assert q' != n && q' != q;
        assert slots'[q'] == slots[q'] != t;
        assert slots[q'] != a;
      } else if q' == n && 0 <= i' < TABLE_ENTRIES {
        assert tables'[a][i'] == 0;
      }
    }
  }

  /** Writing entry `e` at index `i` of the P1 table on path `q` keeps the
      hierarchy valid. */
  lemma WriteLeafKeepsValid(tables: map<int, seq<int>>, slots: map<seq<int>, int>, root: int, limit: int,
                            q: seq<int>, i: int, e: int)
    requires TablesValid(tables, slots, root, limit)
    requires q in slots && |q| == 3 && 0 <= i < TABLE_ENTRIES
    ensures var t := slots[q];
            TablesValid(tables[t := tables[t][i := e]], slots, root, limit)
  {
    var t := slots[q];
    var tables' := tables[t := tables[t][i := e]];
    forall q1, j | q1 in slots && |q1| < 3 && 0 <= j < TABLE_ENTRIES
      ensures tables'[slots[q1]][j] == tables[slots[q1]][j]
    {
      assert q1 != q;
    }
  }

  /** ... and it changes that one P1 entry only. */
  lemma WriteLeafUpdates(tables: map<int, seq<int>>, slots: map<seq<int>, int>, root: int, limit: int,
                         q: seq<int>, i: int, e: int)
    requires TablesValid(tables, slots, root, limit)
    requires q in slots && |q| == 3 && 0 <= i < TABLE_ENTRIES
    ensures var t := slots[q];
            && SlotsWellFormed(tables[t := tables[t][i := e]], slots)
            && LeavesUpdated(tables[t := tables[t][i := e]], slots, tables, slots, q, i, e)
  {
    var t := slots[q];
    var tables' := tables[t := tables[t][i := e]];
    forall q', i' ensures Leaf(tables', slots, q', i') == if q' == q && i' == i then e else Leaf(tables, slots, q', i')
    {
      if |q'| == 3 && q' in slots && q' != q {
        assert slots[q'] != t;
      }
    }
  }

  /** Tables the walk for `v` must still create below the table on path
      `Prefix(v, 3 - level)`, counted in bytes of frames. */
  ghost function MissingTableBytes(slots: map<seq<int>, int>, v: int, level: nat): nat
    requires 0 <= v && level <= 3
  {
    if level == 0 then 0
    else (if Prefix(v, 4 - level) in slots then 0 else PAGE_SIZE) + MissingTableBytes(slots, v, level - 1)
  }

  /** One level of the count: the table on the next path of `v` is missing
      or not, and the rest is counted after it has been added. */
  lemma MissingStep(s0: map<seq<int>, int>, s1: map<seq<int>, int>, v: int, level: nat, a: int)
    requires 0 <= v && 0 < level <= 3
    requires s1 == if Prefix(v, 4 - level) in s0 then s0 else s0[Prefix(v, 4 - level) := a]
    ensures MissingTableBytes(s0, v, level)
            == (if Prefix(v, 4 - level) in s0 then 0 else PAGE_SIZE) + MissingTableBytes(s1, v, level - 1)
  {
    if Prefix(v, 4 - level) !in s0 {
      AddedSlotKeepsMissing(s0, v, level - 1, Prefix(v, 4 - level), a);
    }
  }

  /** Adding the slot for a path shorter than those the count looks at does
      not change the count. */
  lemma {:induction false} AddedSlotKeepsMissing(slots: map<seq<int>, int>, v: int, level: nat, n: seq<int>, a: int)
    requires 0 <= v && level <= 3 && |n| < 4 - level
    ensures MissingTableBytes(slots[n := a], v, level) == MissingTableBytes(slots, v, level)
  {
    if level > 0 {
      assert Prefix(v, 4 - level) != n;
      AddedSlotKeepsMissing(slots, v, level - 1, n, a);
    }
  }

  /** Page `j` of the run from `v` translates to page `j` of the run from
      `p` for every `j < n`, and addresses outside the run as before. */
  ghost predicate RunMapped(t1: map<int, seq<int>>, s1: map<seq<int>, int>,
                            t0: map<int, seq<int>>, s0: map<seq<int>, int>, v: int, p: int, n: nat)
    requires SlotsWellFormed(t1, s1) && SlotsWellFormed(t0, s0) && 0 <= v && 0 <= p
  {
    && (forall j :: 0 <= j < n ==> Translate(t1, s1, v + j * 4096) == NewPage(p + j * 4096))
    && (forall v' :: 0 <= v' && OutsideRun(v', v, n) ==> Translate(t1, s1, v') == Translate(t0, s0, v'))
  }

  /** `a` is in none of the `n` pages from `v` on. */
  predicate OutsideRun(a: int, v: int, n: nat)
    requires 0 <= a && 0 <= v
  {
    n == 0 || (!SamePage(a, v + (n - 1) * 4096) && OutsideRun(a, v, n - 1))
  }

  /** Being outside the run is being in none of its pages. */
  lemma {:induction false} OutsideRunIsNoPage(a: int, v: int, n: nat)
    requires 0 <= a && 0 <= v
    ensures OutsideRun(a, v, n) <==> forall j :: 0 <= j < n ==> !SamePage(a, v + j * 4096)
  {
    if n > 0 {
      OutsideRunIsNoPage(a, v, n - 1);
    }
  }

  /** Mapping page `n` of the run extends a mapped run of `n` pages. */
  lemma RunStep(t2: map<int, seq<int>>, s2: map<seq<int>, int>, t1: map<int, seq<int>>, s1: map<seq<int>, int>,
                t0: map<int, seq<int>>, s0: map<seq<int>, int>, v: int, p: int, n: nat, vn: int, pn: int)
    requires SlotsWellFormed(t2, s2) && SlotsWellFormed(t1, s1) && SlotsWellFormed(t0, s0)
    requires 0 <= v && 0 <= p && n < 0x10_0000_0000 && vn == v + n * 4096 && pn == p + n * 4096
    requires RunMapped(t1, s1, t0, s0, v, p, n)
    requires MapsPage(t2, s2, t1, s1, vn, NewPage(pn))
    ensures RunMapped(t2, s2, t0, s0, v, p, n + 1)
  {
    forall j | 0 <= j < n + 1
      ensures Translate(t2, s2, v + j * 4096) == NewPage(p + j * 4096)
    {
      if j < n {
        ConsecutivePagesDiffer(v, j, n);
        assert Translate(t2, s2, v + j * 4096) == Translate(t1, s1, v + j * 4096);
      }
    }
    forall v' | 0 <= v' && OutsideRun(v', v, n + 1)
      ensures Translate(t2, s2, v') == Translate(t0, s0, v')
    {
      assert !SamePage(v', vn) && OutsideRun(v', v, n);
    }
  }

  /** The P4 table and the frames its hierarchy is built from. */
  class PageTables {
    /** The 512 entries of every table frame, by physical address. */
    var tables: map<int, seq<int>>
    /** The P4 table. */
    var root: int
    /** The global `PAGE_FRAME_ALLOCATOR`. */
    var frames: PageFrameAllocator
    /** The table reached along each index path from the root. */
    ghost var Slots: map<seq<int>, int>

    ghost predicate Valid()
      reads this, frames
    {
      && frames.Valid()
      && 0 <= frames.memoryStart
      && frames.memoryEnd + PAGE_SIZE < TABLE_ADDRESS_LIMIT
      && TablesValid(tables, Slots, root, frames.currentPage)
    }

    /** The P1 entry `v` translates through. */
    ghost function Translation(v: int): int
      requires Valid() && 0 <= v
      reads this, frames
    {
      Translate(tables, Slots, v)
    }

    /** A hierarchy holding only an empty P4 table at `rootFrame`, a frame the
        allocator has already handed out. */
    constructor (allocator: PageFrameAllocator, rootFrame: int)
      requires allocator.Valid() && 0 <= allocator.memoryStart && allocator.memoryEnd + PAGE_SIZE < TABLE_ADDRESS_LIMIT
      requires rootFrame % 4096 == 0 && 0 <= rootFrame <= allocator.currentPage && rootFrame < TABLE_ADDRESS_LIMIT
      ensures Valid() && frames == allocator && root == rootFrame
      ensures tables == map[rootFrame := EmptyTable()] && Slots == map[[] := rootFrame]
      ensures forall v :: 0 <= v ==> Translation(v) == 0
    {
      frames := allocator;
      root := rootFrame;
      tables := map[rootFrame := EmptyTable()];
      Slots := map[[] := rootFrame];
      new;
      assert forall q, i :: q + [i] !in Slots by {
        forall q: seq<int>, i: int ensures q + [i] != [] { assert |q + [i]| > 0; }
      }
    }

    /** The P1 step of `map_recursive`: the entry at the level-0 index of `v`
        becomes `Page::new(p_addr)`. */
    method WriteLeaf(t: int, v: int, p: int, ghost q: seq<int>)
      requires Valid() && 0 <= v && 0 <= p
      requires q == Prefix(v, 3) && q in Slots && Slots[q] == t
      modifies this
      ensures Valid() && root == old(root) && frames == old(frames) && Slots == old(Slots)
      ensures LeavesUpdated(tables, Slots, old(tables), old(Slots), q, Index(v, 0), NewPage(p))
    {
      var i := Index(v, 0);
      WriteLeafKeepsValid(tables, Slots, root, frames.currentPage, q, i, NewPage(p));
      WriteLeafUpdates(tables, Slots, root, frames.currentPage, q, i, NewPage(p));
      tables := tables[t := tables[t][i := NewPage(p)]];
    }

    /** One step down in `map_recursive`: when the entry at `index` of the
        table on path `q` is unused, a frame from the allocator becomes its
        table (false when there is none, where the source panics); the table
        the entry points to is returned. A used entry is only read. */
    method NextTable(t: int, index: int, ghost q: seq<int>) returns (ok: bool, next: int)
      requires Valid() && q in Slots && |q| < 3 && Slots[q] == t && 0 <= index < TABLE_ENTRIES
      modifies this, frames`currentPage, frames`Issued, frames`Wrapped
      ensures Valid() && root == old(root) && frames == old(frames)
      ensures ok ==> q + [index] in Slots && Slots[q + [index]] == next
      ensures ok ==> Slots == if q + [index] in old(Slots) then old(Slots) else old(Slots)[q + [index] := next]
      ensures ok ==> frames.currentPage == old(frames.currentPage) + if q + [index] in old(Slots) then 0 else PAGE_SIZE
      ensures ok ==> LeavesKept(tables, Slots, old(tables), old(Slots))
      ensures !ok ==> frames.currentPage > frames.memoryEnd
      ensures old(tables)[t][index] != 0 ==> ok && tables == old(tables) && frames.currentPage == old(frames.currentPage)
    {
      if IsUnused(tables[t][index]) {
        ok, next := AddTable(t, index, q);
      } else {
        assert q + [index] in Slots;
        ok := true;
        next := TableAddress(tables[t][index]);
      }
    }

    /** The unused-entry branch of `map_recursive`: a fresh frame from the
        allocator becomes the table of the entry at `index` of the table on
        path `q`, and is returned (false when there is none). */
    method AddTable(t: int, index: int, ghost q: seq<int>) returns (ok: bool, next: int)
      requires Valid() && q in Slots && |q| < 3 && Slots[q] == t && 0 <= index < TABLE_ENTRIES
      requires IsUnused(tables[t][index])
      modifies this, frames`currentPage, frames`Issued, frames`Wrapped
      ensures Valid() && root == old(root) && frames == old(frames)
      ensures ok ==> q + [index] !in old(Slots) && Slots == old(Slots)[q + [index] := next]
      ensures ok ==> frames.currentPage == old(frames.currentPage) + PAGE_SIZE
      ensures ok ==> LeavesKept(tables, Slots, old(tables), old(Slots))
      ensures !ok ==> frames.currentPage > frames.memoryEnd
    {
      assert q + [index] !in Slots;
      ghost var limit := frames.currentPage;
      var frame := frames.AllocPageFrame();
      if frame.None? {
        // `expect("PFA Ran out of memory")` panics.
        return false, 0;
      }
      var a := frame.value;
      AddTableKeepsValid(tables, Slots, root, limit, q, index, a);
      AddTableKeepsLeaves(tables, Slots, root, limit, q, index, a);
      TableAddressOfNewPage(a);
      tables := tables[t := tables[t][index := NewPage(a)]][a := EmptyTable()];
      Slots := Slots[q + [index] := a];
      ok := true;
      next := TableAddress(tables[t][index]);
    }

    /** `map_recursive(v_addr, p_addr, level)` on the table at `t`, reached
        along the path `q`: each level below P1 goes through `NextTable`, and
        P1 gets the entry in `WriteLeaf`. It returns false where the source
        panics: the allocator ran out of frames. */
    method MapRecursive(t: int, v: int, p: int, level: nat, ghost q: seq<int>) returns (ok: bool)
      requires Valid() && level <= 3 && 0 <= v && 0 <= p
      requires q == Prefix(v, 3 - level) && q in Slots && Slots[q] == t
      modifies this, frames`currentPage, frames`Issued, frames`Wrapped
      ensures Valid() && root == old(root) && frames == old(frames)
      ensures ok ==> LeavesUpdated(tables, Slots, old(tables), old(Slots), Prefix(v, 3), Index(v, 0), NewPage(p))
      ensures ok ==> frames.currentPage == old(frames.currentPage) + MissingTableBytes(old(Slots), v, level)
      ensures !ok ==> frames.currentPage > frames.memoryEnd
      decreases level
    {
      if level == 0 {
        WriteLeaf(t, v, p, q);
        ok := true;
      } else {
        var index := Index(v, level);
        PrefixStep(v, 3 - level);
        ghost var tables0, slots0 := tables, Slots;
        var next;
        ok, next := NextTable(t, index, q);
        if !ok {
          return;
        }
        MissingStep(slots0, Slots, v, level, next);
        ghost var tables1, slots1 := tables, Slots;
        ok := MapRecursive(next, v, p, level - 1, q + [index]);
        if ok {
          KeptThenUpdated(tables, Slots, tables1, slots1, tables0, slots0, Prefix(v, 3), Index(v, 0), NewPage(p));
        }
      }
    }

    /** `map(v_addr, p_addr)`: `map_recursive` from the P4 table at level 3.
        The page of `v` translates through `Page::new(p)` and nothing else
        changes; a frame is taken for each table the walk lacked. */
    method Map(v: int, p: int) returns (ok: bool)
      requires Valid() && 0 <= v && 0 <= p
      modifies this, frames`currentPage, frames`Issued, frames`Wrapped
      ensures Valid() && root == old(root) && frames == old(frames)
      ensures ok ==> MapsPage(tables, Slots, old(tables), old(Slots), v, NewPage(p))
      ensures ok ==> frames.currentPage == old(frames.currentPage) + MissingTableBytes(old(Slots), v, 3)
      ensures !ok ==> frames.currentPage > frames.memoryEnd
    {
      ok := MapRecursive(root, v, p, 3, []);
      if ok {
        LeafUpdateMapsPage(tables, Slots, old(tables), old(Slots), v, NewPage(p));
      }
    }

    /** `map_pages(number_of_pages, v_addr, p_addr)`: page `i` of the virtual
        run is mapped to page `i` of the physical run, in order. The sums
        must not overflow a usize; fewer than 2^36 pages keep the virtual
        pages distinct. */
    method MapPages(numberOfPages: nat, v: int, p: int) returns (ok: bool)
      requires Valid() && 0 <= v && 0 <= p && numberOfPages < 0x10_0000_0000
      requires numberOfPages > 0 ==>
                 v + (numberOfPages - 1) * 4096 < USIZE_MODULUS && p + (numberOfPages - 1) * 4096 < USIZE_MODULUS
      modifies this, frames`currentPage, frames`Issued, frames`Wrapped
      ensures Valid() && root == old(root) && frames == old(frames)
      ensures ok ==> RunMapped(tables, Slots, old(tables), old(Slots), v, p, numberOfPages)
      ensures !ok ==> frames.currentPage > frames.memoryEnd
    {
      ghost var t0, s0 := tables, Slots;
      assert SlotsWellFormed(t0, s0);
      var i := 0;
      while i < numberOfPages
        invariant 0 <= i <= numberOfPages
        invariant Valid() && root == old(root) && frames == old(frames)
        invariant t0 == old(tables) && s0 == old(Slots) && SlotsWellFormed(t0, s0)
        invariant RunMapped(tables, Slots, t0, s0, v, p, i)
      {
        ok := MapNext(numberOfPages, v, p, i, t0, s0);
        if !ok {
          return;
        }
        i := i + 1;
      }
      ok := true;
    }

    /** One turn of the loop in `map_pages`: page `i` of the virtual run is
        mapped to page `i` of the physical run, extending the run mapped so far. */
    method MapNext(numberOfPages: nat, v: int, p: int, i: nat, ghost t0: map<int, seq<int>>, ghost s0: map<seq<int>, int>)
      returns (ok: bool)
      requires Valid() && 0 <= v && 0 <= p && i < numberOfPages < 0x10_0000_0000
      requires v + (numberOfPages - 1) * 4096 < USIZE_MODULUS && p + (numberOfPages - 1) * 4096 < USIZE_MODULUS
      requires SlotsWellFormed(t0, s0) && RunMapped(tables, Slots, t0, s0, v, p, i)
      modifies this, frames`currentPage, frames`Issued, frames`Wrapped
      ensures Valid() && root == old(root) && frames == old(frames)
      ensures ok ==> RunMapped(tables, Slots, t0, s0, v, p, i + 1)
      ensures !ok ==> frames.currentPage > frames.memoryEnd
    {
      var pAddr := p + i * PAGE_SIZE;
      var vAddr := v + i * PAGE_SIZE;
      assert vAddr == v + i * 4096 && pAddr == p + i * 4096;
      ghost var tables1, slots1 := tables, Slots;
      ok := Map(vAddr, pAddr);
      if ok {
        RunStep(tables, Slots, tables1, slots1, t0, s0, v, p, i, vAddr, pAddr);
      }
    }
  }

  /** Keeping every P1 entry and then changing one changes that one only. */
  lemma KeptThenUpdated(t2: map<int, seq<int>>, s2: map<seq<int>, int>, t1: map<int, seq<int>>, s1: map<seq<int>, int>,
                        t0: map<int, seq<int>>, s0: map<seq<int>, int>, q: seq<int>, i: int, e: int)
    requires SlotsWellFormed(t2, s2) && SlotsWellFormed(t1, s1) && SlotsWellFormed(t0, s0)
    requires LeavesKept(t1, s1, t0, s0) && LeavesUpdated(t2, s2, t1, s1, q, i, e)
    ensures LeavesUpdated(t2, s2, t0, s0, q, i, e)
  {
  }
}
