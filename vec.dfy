/** The growable array (kernel/src/ds/vec.rs). The buffer `kmalloc` returns is
    modelled as the slots written since it was allocated; a slot not written
    since then holds whatever the allocation held. */
module Vec {
  import opened Wrappers

  const DEFAULT_SIZE: nat := 50

  /** A slot of the buffer: written by `push`, or stale allocator memory. */
  datatype Slot<T> = Written(value: T) | Stale

  class DynamicArray<T> {
    /** The slots written since the buffer was allocated. */
    var data: map<nat, T>
    var capacity: nat
    var length: nat
    /** The number of elements the current allocation has room for. */
    var allocation: nat

    ghost predicate Valid()
      reads this
    {
      forall i :: i in data ==> i < length
    }

    /** `new`: an empty array with room for fifty elements. */
    constructor ()
      ensures Valid() && length == 0 && capacity == DEFAULT_SIZE && allocation == DEFAULT_SIZE && data == map[]
    {
      data := map[];
      capacity := DEFAULT_SIZE;
      length := 0;
      allocation := DEFAULT_SIZE;
    }

    /** `push`. Below capacity the element goes into slot `length`. At capacity
        the "resize" allocates a fresh buffer of the default size, copies the
        fresh buffer over the old one (the arguments of `ptr::copy` are swapped),
        frees the old one and sets the capacity to 0, so every element pushed so
        far is lost and every later push resizes again. The new allocation
        still holds only fifty elements, so the element is written at the old
        length, past its end. */
    method Push(element: T)
      requires Valid()
      modifies this
      ensures Valid() && length == old(length) + 1
      ensures old(length) < old(capacity) ==>
                && capacity == old(capacity) && allocation == old(allocation)
                && data == old(data)[old(length) := element]
      ensures old(length) >= old(capacity) ==>
                capacity == 0 && allocation == DEFAULT_SIZE && data == map[old(length) := element]
    {
      if length >= capacity {
        var newCapacity := capacity * 2;
        data := map[];
        capacity := 0;
        allocation := DEFAULT_SIZE;
      }
      data := data[length := element];
      length := length + 1;
    }

    /** `is_empty`. */
    method IsEmpty() returns (empty: bool)
      ensures empty <==> length == 0
    {
      empty := length == 0;
    }

    /** `length`. */
    method Length() returns (n: nat)
      ensures n == length
    {
      n := length;
    }

    /** `get`: the slot at `index` when it is below the length. */
    method Get(index: nat) returns (r: Option<Slot<T>>)
      requires Valid()
      ensures r.Some? <==> index < length
      ensures r.Some? ==> (r.value.Written? <==> index in data)
      ensures r.Some? && index in data ==> r.value == Written(data[index])
    {
      if index < length {
        if index in data {
          r := Some(Written(data[index]));
        } else {
          r := Some(Stale);
        }
      } else {
        r := None;
      }
    }
  }

  /** Pushing a sequence that fits in the capacity appends it: each element is
      found again at its own index. */
  method PushAll<T>(v: DynamicArray<T>, xs: seq<T>)
    requires v.Valid() && v.length + |xs| <= v.capacity
    modifies v
    ensures v.Valid() && v.length == old(v.length) + |xs| && v.capacity == old(v.capacity)
    ensures v.allocation == old(v.allocation)
    ensures forall j :: old(v.length) <= j < old(v.length) + |xs| ==> j in v.data && v.data[j] == xs[j - old(v.length)]
    ensures forall i :: i in old(v.data) ==> i in v.data && v.data[i] == old(v.data)[i]
  {
    var start := v.length;
    var k := 0;
    while k < |xs|
      invariant 0 <= k <= |xs|
      invariant v.Valid() && v.length == start + k && v.capacity == old(v.capacity)
      invariant v.allocation == old(v.allocation)
      invariant forall j :: start <= j < start + k ==> j in v.data && v.data[j] == xs[j - start]
      invariant forall i :: i in old(v.data) ==> i in v.data && v.data[i] == old(v.data)[i]
    {
      v.Push(xs[k]);
      k := k + 1;
    }
  }

  /** Fifty-one pushes into a new array keep only the last element, written
      just past the end of the fifty-element allocation. */
  method FiftyFirstPushLosesTheRest<T>(xs: seq<T>) returns (v: DynamicArray<T>)
    requires |xs| == DEFAULT_SIZE + 1
    ensures v.Valid() && v.length == DEFAULT_SIZE + 1 && v.capacity == 0
    ensures DEFAULT_SIZE in v.data && DEFAULT_SIZE >= v.allocation
    ensures v.data == map[DEFAULT_SIZE := xs[DEFAULT_SIZE]]
  {
    v := new DynamicArray<T>();
    PushAll(v, xs[..DEFAULT_SIZE]);
    v.Push(xs[DEFAULT_SIZE]);
  }
}
