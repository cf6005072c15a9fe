/** Physical memory as the kernel sees it through raw `*mut usize` pointers:
    a map from the byte address of each 8-byte word to the word's value. */
module PhysicalMemory {

  class Memory {
    /** The u64 value held at each word address. */
    var words: map<int, int>

    constructor ()
      ensures words == map[]
    {
      words := map[];
    }
  }

  /** `a` is one of the first `n` words of the block at `base`. */
  predicate IsWordBelow(base: int, n: nat, a: int)
  {
    base <= a < base + 8 * n && (a - base) % 8 == 0
  }

  /** The memory after `*base.offset(i) = 0` for every `i < n`. */
  function Zeroed(m: map<int, int>, base: int, n: nat): map<int, int>
  {
    if n == 0 then m else Zeroed(m, base, n - 1)[base + 8 * (n - 1) := 0]
  }

  /** Zeroing writes 0 into exactly the first `n` words at `base` and keeps the
      value of every other word. */
  lemma {:induction false} ZeroedAt(m: map<int, int>, base: int, n: nat, a: int)
    ensures a in Zeroed(m, base, n) <==> a in m || IsWordBelow(base, n, a)
    ensures IsWordBelow(base, n, a) ==> Zeroed(m, base, n)[a] == 0
    ensures !IsWordBelow(base, n, a) && a in m ==> Zeroed(m, base, n)[a] == m[a]
  {
    if n > 0 {
      ZeroedAt(m, base, n - 1, a);
      assert IsWordBelow(base, n, a) <==> IsWordBelow(base, n - 1, a) || a == base + 8 * (n - 1);
    }
  }
}
