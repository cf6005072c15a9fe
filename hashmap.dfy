/** The five-slot hash map (kernel/src/ds/hashmap.rs). Each slot holds at most
    one item; the chaining the comments describe is not implemented, so a key
    that collides is dropped, and the value itself is never stored. The queue
    address `kmalloc` returns for each new item is a parameter. */
module HashMaps {
  import opened Wrappers

  const CAPACITY: nat := 5
  const USIZE_MODULUS: nat := 0x1_0000_0000_0000_0000

  /** `HashItem`: the key and the address of the (never initialised) queue of
      values allocated for it. */
  datatype HashItem = HashItem(key: nat, values: nat)

  /** `hash`: the slot of a key. */
  function Hash(key: nat): (index: nat)
    ensures index < CAPACITY
    ensures key < CAPACITY ==> index == key
  {
    key % CAPACITY
  }

  /** Keys five apart share a slot. */
  lemma HashIsPeriodic(key: nat)
    ensures Hash(key + CAPACITY) == Hash(key)
  {
  }

  /** Two keys collide exactly when they differ by a multiple of five. */
  lemma {:induction false} HashCollides(k1: nat, k2: nat)
    requires k1 <= k2
    ensures Hash(k1) == Hash(k2) <==> (k2 - k1) % CAPACITY == 0
  {
    var q1, q2 := k1 / CAPACITY, k2 / CAPACITY;
    assert k1 == q1 * CAPACITY + Hash(k1);
    assert k2 == q2 * CAPACITY + Hash(k2);
    assert k2 - k1 == (q2 - q1) * CAPACITY + (Hash(k2) - Hash(k1));
  }

  class HashMap<T> {
    const items: array<Option<HashItem>>

    /** Every item sits in its key's slot. */
    ghost predicate Valid()
      reads this, items
    {
      items.Length == CAPACITY &&
      forall i :: 0 <= i < CAPACITY && items[i].Some? ==> Hash(items[i].value.key) == i
    }

    /** The keys the map holds. */
    ghost function Keys(): set<nat>
      requires Valid()
      reads this, items
    {
      set i | 0 <= i < CAPACITY && items[i].Some? :: items[i].value.key
    }

    /** `HashMap::new`: every slot empty. */
    constructor ()
      ensures Valid() && fresh(items) && items[..] == [None, None, None, None, None]
    {
      items := new Option<HashItem>[CAPACITY](_ => None);
    }

    /** `set`: a new item in the key's slot when that is empty; an occupied
        slot is left as it was, whoever's key it holds. */
    method Set(key: nat, value: T, queue: nat)
      requires Valid() && key < USIZE_MODULUS
      modifies items
      ensures Valid()
      ensures old(items[Hash(key)]).None? ==> items[..] == old(items[..])[Hash(key) := Some(HashItem(key, queue))]
      ensures old(items[Hash(key)]).Some? ==> items[..] == old(items[..])
      ensures old(items[Hash(key)]).None? ==> Keys() == old(Keys()) + {key}
    {
      var item := HashItem(key, queue);
      var index := Hash(key);
      match items[index]
      case Some(existingItem) =>
      case None =>
        items[index] := Some(item);
        KeysAfterFill(old(items[..]), index);
    }

    /** `get`: nothing is ever found, because the lookup is commented out. */
    method Get(key: nat) returns (r: Option<T>)
      requires Valid() && key < USIZE_MODULUS
      ensures r == None
    {
      var index := Hash(key);
      if index > CAPACITY {
        return None;
      }
      match items[index]
      case Some(item) => r := None;
      case None => r := None;
    }

    /** `delete`: the key's slot is emptied when it holds that key; otherwise
        nothing changes. */
    method Delete(key: nat)
      requires Valid() && key < USIZE_MODULUS
      modifies items
      ensures Valid()
      ensures old(items[Hash(key)]).Some? && old(items[Hash(key)]).value.key == key ==>
                items[..] == old(items[..])[Hash(key) := None]
      ensures !(old(items[Hash(key)]).Some? && old(items[Hash(key)]).value.key == key) ==>
                items[..] == old(items[..])
      ensures Keys() == old(Keys()) - {key}
    {
      var index := Hash(key);
      if index > CAPACITY {
        return;
      }
      if items[index].Some? {
        var existingItem := items[index].value;
        if existingItem.key == key {
          items[index] := None;
          KeysAfterClear(old(items[..]), index);
          return;
        }
        KeysWithoutAbsentKey(key);
      } else {
        KeysWithoutAbsentKey(key);
      }
    }

    /** A key not in its own slot is not in the map. */
    lemma KeysWithoutAbsentKey(key: nat)
      requires Valid()
      requires !(items[Hash(key)].Some? && items[Hash(key)].value.key == key)
      ensures key !in Keys()
    {
    }

    /** Filling empty slot `index` adds exactly its new key. */
    lemma KeysAfterFill(before: seq<Option<HashItem>>, index: nat)
      requires Valid() && |before| == CAPACITY && index < CAPACITY
      requires before[index].None? && items[index].Some?
      requires forall i :: 0 <= i < CAPACITY && before[i].Some? ==> Hash(before[i].value.key) == i
      requires items[..] == before[index := items[index]]
      ensures Keys() == (set i | 0 <= i < CAPACITY && before[i].Some? :: before[i].value.key) + {items[index].value.key}
    {
      var beforeKeys := set i | 0 <= i < CAPACITY && before[i].Some? :: before[i].value.key;
      forall k | k in beforeKeys
        ensures k in Keys()
      {
        var i :| 0 <= i < CAPACITY && before[i].Some? && before[i].value.key == k;
        assert items[i] == before[i];
      }
    }

    /** Emptying slot `index`, which held a key, removes exactly that key. */
    lemma KeysAfterClear(before: seq<Option<HashItem>>, index: nat)
      requires Valid() && |before| == CAPACITY && index < CAPACITY
      requires before[index].Some? && Hash(before[index].value.key) == index
      requires forall i :: 0 <= i < CAPACITY && before[i].Some? ==> Hash(before[i].value.key) == i
      requires items[..] == before[index := None]
      ensures Keys() == (set i | 0 <= i < CAPACITY && before[i].Some? :: before[i].value.key) - {before[index].value.key}
    {
      var beforeKeys := set i | 0 <= i < CAPACITY && before[i].Some? :: before[i].value.key;
      var key := before[index].value.key;
      forall k | k in beforeKeys - {key}
        ensures k in Keys()
      {
        var i :| 0 <= i < CAPACITY && before[i].Some? && before[i].value.key == k;
        assert i != index;
        assert items[i] == before[i];
      }
    }
  }

  /** Setting a key whose slot is empty and deleting it again restores the map;
      setting a second key in the same slot is ignored. */
  method SetThenDelete<T>(m: HashMap<T>, key: nat, other: nat, value: T, queue: nat)
    requires m.Valid() && key < USIZE_MODULUS && other < USIZE_MODULUS
    requires m.items[Hash(key)].None? && Hash(other) == Hash(key) && other != key
    modifies m.items
    ensures m.Valid() && m.items[..] == old(m.items[..])
  {
    m.Set(key, value, queue);
    m.Set(other, value, queue);
    assert m.items[Hash(key)] == Some(HashItem(key, queue));
    m.Delete(key);
  }
}
