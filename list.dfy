/** The intrusive doubly linked list (kernel/src/ds/list.rs). Each node is
    written at an address the caller chooses; `nodes` is the memory at those
    addresses, viewed as list nodes. */
module LinkedList {
  import opened Wrappers

  datatype ListNode<T> = ListNode(payload: T, next: Option<int>, prev: Option<int>)

  /** The address at position `i` of a chain, or None off either end. */
  function Link(addrs: seq<int>, i: int): Option<int>
  {
    if 0 <= i < |addrs| then Some(addrs[i]) else None
  }

  function Payloads<T>(nodes: map<int, ListNode<T>>, addrs: seq<int>): (s: seq<T>)
    requires forall i :: 0 <= i < |addrs| ==> addrs[i] in nodes
    ensures |s| == |addrs|
    ensures forall i {:trigger s[i]} :: 0 <= i < |addrs| ==> s[i] == nodes[addrs[i]].payload
  {
    seq(|addrs|, i requires 0 <= i < |addrs| => nodes[addrs[i]].payload)
  }

  /** Distinct addresses, each holding a node whose `next` and `prev` name its
      neighbours in the chain. */
  ghost predicate ValidChain<T>(nodes: map<int, ListNode<T>>, addrs: seq<int>)
  {
    && (forall i, j :: 0 <= i < j < |addrs| ==> addrs[i] != addrs[j])
    && (forall i :: 0 <= i < |addrs| ==> addrs[i] in nodes)
    && (forall i {:trigger nodes[addrs[i]]} :: 0 <= i < |addrs| ==>
          nodes[addrs[i]].next == Link(addrs, i + 1) && nodes[addrs[i]].prev == Link(addrs, i - 1))
  }

  /** The node memory after `push_front(payload, addr)`. */
  function PushFrontNodes<T>(nodes: map<int, ListNode<T>>, head: Option<int>, payload: T, addr: int): map<int, ListNode<T>>
    requires head.Some? ==> head.value in nodes
  {
    var m := nodes[addr := ListNode(payload, head, None)];
    if head.Some? && head.value in m then m[head.value := m[head.value].(prev := Some(addr))] else m
  }

  lemma PushFrontKeepsChain<T>(nodes: map<int, ListNode<T>>, addrs: seq<int>, payload: T, addr: int)
    requires ValidChain(nodes, addrs) && addr !in addrs
    ensures var m := PushFrontNodes(nodes, Link(addrs, 0), payload, addr);
            && ValidChain(m, [addr] + addrs)
            && Payloads(m, [addr] + addrs) == [payload] + Payloads(nodes, addrs)
  {
    var m := PushFrontNodes(nodes, Link(addrs, 0), payload, addr);
    var a := [addr] + addrs;
    assert m[addr] == ListNode(payload, Link(addrs, 0), None);
    forall i | 1 <= i < |a|
      ensures a[i] in m && m[a[i]].next == Link(a, i + 1) && m[a[i]].prev == Link(a, i - 1)
      ensures m[a[i]].payload == nodes[addrs[i - 1]].payload
    {
      var x := addrs[i - 1];
      assert a[i] == x && x != addr;
      if i == 1 {
        assert m[x] == nodes[x].(prev := Some(addr));
      } else {
        assert x != addrs[0];
        assert m[x] == nodes[x];
        assert Link(a, i - 1) == Link(addrs, i - 2);
      }
      assert Link(a, i + 1) == Link(addrs, i);
    }
    assert forall i, j :: 0 <= i < j < |a| ==> a[i] != a[j] by {
      forall i, j | 0 <= i < j < |a| ensures a[i] != a[j] {
        assert a[j] == addrs[j - 1];
        if i > 0 {
          assert a[i] == addrs[i - 1];
        }
      }
    }
    assert Link(a, 1) == Link(addrs, 0);
  }

  /** The node memory after `push_back(payload, addr)`. */
  function PushBackNodes<T>(nodes: map<int, ListNode<T>>, tail: Option<int>, payload: T, addr: int): map<int, ListNode<T>>
    requires tail.Some? ==> tail.value in nodes
  {
    var m := nodes[addr := ListNode(payload, None, tail)];
    if tail.Some? && tail.value in m then m[tail.value := m[tail.value].(next := Some(addr))] else m
  }

  lemma PushBackKeepsChain<T>(nodes: map<int, ListNode<T>>, addrs: seq<int>, payload: T, addr: int)
    requires ValidChain(nodes, addrs) && addr !in addrs
    ensures var m := PushBackNodes(nodes, Link(addrs, |addrs| - 1), payload, addr);
            && ValidChain(m, addrs + [addr])
            && Payloads(m, addrs + [addr]) == Payloads(nodes, addrs) + [payload]
  {
    var m := PushBackNodes(nodes, Link(addrs, |addrs| - 1), payload, addr);
    var a := addrs + [addr];
    forall i | 0 <= i < |a|
      ensures a[i] in m && m[a[i]].next == Link(a, i + 1) && m[a[i]].prev == Link(a, i - 1)
      ensures m[a[i]].payload == if i == |addrs| then payload else nodes[addrs[i]].payload
    {
      if i < |addrs| {
        assert a[i] == addrs[i];
        assert i + 1 < |addrs| ==> Link(a, i + 1) == Link(addrs, i + 1);
        assert Link(a, i - 1) == Link(addrs, i - 1);
      }
    }
  }

  /** The node memory after `remove` links the neighbours of the node at `c`
      to each other. */
  function RelinkNeighbours<T>(nodes: map<int, ListNode<T>>, c: int): map<int, ListNode<T>>
    requires c in nodes
    requires nodes[c].prev.Some? ==> nodes[c].prev.value in nodes
    requires nodes[c].next.Some? ==> nodes[c].next.value in nodes
  {
    match (nodes[c].prev, nodes[c].next)
    case (Some(p), Some(n)) =>
      var m1 := nodes[p := nodes[p].(next := Some(n))];
      m1[n := m1[n].(prev := Some(p))]
    case (Some(p), None) => nodes[p := nodes[p].(next := None)]
    case (None, Some(n)) => nodes[n := nodes[n].(prev := None)]
    case (None, None) => nodes
  }

  /** The node memory after `remove` unlinks the node at `c`: its neighbours
      are linked to each other and its own links are cleared. */
  function UnlinkNodes<T>(nodes: map<int, ListNode<T>>, c: int): map<int, ListNode<T>>
    requires c in nodes
    requires nodes[c].prev.Some? ==> nodes[c].prev.value in nodes
    requires nodes[c].next.Some? ==> nodes[c].next.value in nodes
  {
    RelinkNeighbours(nodes, c)[c := nodes[c].(prev := None, next := None)]
  }

  /** What `UnlinkNodes` leaves at each address. */
  lemma UnlinkNodesAt<T>(nodes: map<int, ListNode<T>>, addrs: seq<int>, k: nat, x: int)
    requires ValidChain(nodes, addrs) && k < |addrs| && x in nodes
    ensures var m := UnlinkNodes(nodes, addrs[k]);
            && x in m
            && (x == addrs[k] ==> m[x] == nodes[x].(prev := None, next := None))
            && (k > 0 && x == addrs[k - 1] ==> m[x] == nodes[x].(next := Link(addrs, k + 1)))
            && (k + 1 < |addrs| && x == addrs[k + 1] ==> m[x] == nodes[x].(prev := Link(addrs, k - 1)))
            && (x != addrs[k] && (k > 0 ==> x != addrs[k - 1]) && (k + 1 < |addrs| ==> x != addrs[k + 1])
                ==> m[x] == nodes[x])
  {
    assert nodes[addrs[k]].prev == Link(addrs, k - 1) && nodes[addrs[k]].next == Link(addrs, k + 1);
    assert k > 0 && k + 1 < |addrs| ==> addrs[k - 1] != addrs[k + 1];
  }

  /** A position before the removed one keeps its node, relinked on the right
      when it was the removed node's predecessor. */
  lemma UnlinkStepBefore<T>(nodes: map<int, ListNode<T>>, addrs: seq<int>, k: nat, i: nat)
    requires ValidChain(nodes, addrs) && i < k < |addrs|
    ensures var m := UnlinkNodes(nodes, addrs[k]);
            var a := addrs[..k] + addrs[k + 1..];
            && a[i] in m && m[a[i]].next == Link(a, i + 1) && m[a[i]].prev == Link(a, i - 1)
            && m[a[i]].payload == nodes[addrs[i]].payload
  {
    var a := addrs[..k] + addrs[k + 1..];
    assert a[i] == addrs[i];
    UnlinkNodesAt(nodes, addrs, k, addrs[i]);
    assert Link(a, i + 1) == (if i + 1 < k then Link(addrs, i + 1) else Link(addrs, i + 2));
    assert Link(a, i - 1) == Link(addrs, i - 1);
  }

  /** A position at or after the removed one holds the next node of the old
      chain, relinked on the left when it was the removed node's successor. */
  lemma UnlinkStepAfter<T>(nodes: map<int, ListNode<T>>, addrs: seq<int>, k: nat, i: nat)
    requires ValidChain(nodes, addrs) && k <= i && i + 1 < |addrs|
    ensures var m := UnlinkNodes(nodes, addrs[k]);
            var a := addrs[..k] + addrs[k + 1..];
            && a[i] in m && m[a[i]].next == Link(a, i + 1) && m[a[i]].prev == Link(a, i - 1)
            && m[a[i]].payload == nodes[addrs[i + 1]].payload
  {
    var a := addrs[..k] + addrs[k + 1..];
    assert a[i] == addrs[i + 1];
    UnlinkNodesAt(nodes, addrs, k, addrs[i + 1]);
    assert Link(a, i + 1) == Link(addrs, i + 2);
    assert Link(a, i - 1) == (if i == k then Link(addrs, i - 1) else Link(addrs, i));
  }

  lemma UnlinkLinks<T>(nodes: map<int, ListNode<T>>, addrs: seq<int>, k: nat)
    requires ValidChain(nodes, addrs) && k < |addrs|
    ensures var m := UnlinkNodes(nodes, addrs[k]);
            var a := addrs[..k] + addrs[k + 1..];
            && (forall i :: 0 <= i < |a| ==> a[i] in m && m[a[i]].next == Link(a, i + 1) && m[a[i]].prev == Link(a, i - 1))
            && (forall i :: 0 <= i < k ==> m[a[i]].payload == nodes[addrs[i]].payload)
            && (forall i :: k <= i < |a| ==> m[a[i]].payload == nodes[addrs[i + 1]].payload)
  {
    var m := UnlinkNodes(nodes, addrs[k]);
    var a := addrs[..k] + addrs[k + 1..];
    forall i | 0 <= i < k
      ensures a[i] in m && m[a[i]].next == Link(a, i + 1) && m[a[i]].prev == Link(a, i - 1)
      ensures m[a[i]].payload == nodes[addrs[i]].payload
    {
      UnlinkStepBefore(nodes, addrs, k, i);
    }
    forall i | k <= i < |a|
      ensures a[i] in m && m[a[i]].next == Link(a, i + 1) && m[a[i]].prev == Link(a, i - 1)
      ensures m[a[i]].payload == nodes[addrs[i + 1]].payload
    {
      UnlinkStepAfter(nodes, addrs, k, i);
    }
  }

  lemma UnlinkKeepsChain<T>(nodes: map<int, ListNode<T>>, addrs: seq<int>, k: nat)
    requires ValidChain(nodes, addrs) && k < |addrs|
    ensures var m := UnlinkNodes(nodes, addrs[k]);
            var a := addrs[..k] + addrs[k + 1..];
            && ValidChain(m, a)
            && Payloads(m, a) == Payloads(nodes, addrs)[..k] + Payloads(nodes, addrs)[k + 1..]
            && addrs[k] in m && m[addrs[k]].next == None && m[addrs[k]].prev == None
  {
    var m := UnlinkNodes(nodes, addrs[k]);
    var a := addrs[..k] + addrs[k + 1..];
    UnlinkNodesAt(nodes, addrs, k, addrs[k]);
    UnlinkLinks(nodes, addrs, k);
    UnlinkIsDistinct(addrs, k);
    PayloadsAfterRemoval(nodes, m, addrs, k, a);
  }

  lemma PayloadsAfterRemoval<T>(nodes: map<int, ListNode<T>>, m: map<int, ListNode<T>>, addrs: seq<int>, k: nat, a: seq<int>)
    requires k < |addrs| && forall i :: 0 <= i < |addrs| ==> addrs[i] in nodes
    requires a == addrs[..k] + addrs[k + 1..]
    requires forall i :: 0 <= i < |a| ==> a[i] in m
    requires forall i :: 0 <= i < k ==> m[a[i]].payload == nodes[addrs[i]].payload
    requires forall i :: k <= i < |a| ==> m[a[i]].payload == nodes[addrs[i + 1]].payload
    ensures Payloads(m, a) == Payloads(nodes, addrs)[..k] + Payloads(nodes, addrs)[k + 1..]
  {
    var p := Payloads(nodes, addrs);
    var q := p[..k] + p[k + 1..];
    var r := Payloads(m, a);
    assert |q| == |a| == |r|;
    forall i | 0 <= i < |a| ensures r[i] == q[i] {
      assert r[i] == m[a[i]].payload;
      if i < k {
        assert q[i] == p[i] == nodes[addrs[i]].payload;
      } else {
        assert q[i] == p[i + 1] == nodes[addrs[i + 1]].payload;
      }
    }
  }

  /** The ends of a chain after position `k` is dropped. */
  lemma RemovedEnds(addrs: seq<int>, k: nat)
    requires k < |addrs|
    ensures var a := addrs[..k] + addrs[k + 1..];
            && Link(a, 0) == (if k == 0 then Link(addrs, 1) else Link(addrs, 0))
            && Link(a, |a| - 1) == (if k == |addrs| - 1 then Link(addrs, k - 1) else Link(addrs, |addrs| - 1))
  {
    var a := addrs[..k] + addrs[k + 1..];
    if 0 < |a| {
      assert a[0] == (if k == 0 then addrs[1] else addrs[0]);
      assert a[|a| - 1] == (if k == |addrs| - 1 then addrs[k - 1] else addrs[|addrs| - 1]);
    }
  }

  lemma UnlinkIsDistinct(addrs: seq<int>, k: nat)
    requires k < |addrs| && forall i, j :: 0 <= i < j < |addrs| ==> addrs[i] != addrs[j]
    ensures var a := addrs[..k] + addrs[k + 1..];
            forall i, j :: 0 <= i < j < |a| ==> a[i] != a[j]
  {
    var a := addrs[..k] + addrs[k + 1..];
    forall i, j | 0 <= i < j < |a| ensures a[i] != a[j] {
      var i' := if i < k then i else i + 1;
      var j' := if j < k then j else j + 1;
      assert a[i] == addrs[i'] && a[j] == addrs[j'] && i' < j';
    }
  }

  /** The list's fields agree with the chain of node addresses `addrs`. */
  ghost predicate ListInvariant<T>(head: Option<int>, tail: Option<int>, length: nat, nodes: map<int, ListNode<T>>, addrs: seq<int>)
  {
    && |addrs| == length
    && head == Link(addrs, 0)
    && tail == Link(addrs, |addrs| - 1)
    && ValidChain(nodes, addrs)
  }

  class List<T> {
    var head: Option<int>
    var tail: Option<int>
    var length: nat
    var nodes: map<int, ListNode<T>>
    /** The node addresses from head to tail. */
    ghost var Addrs: seq<int>

    ghost predicate Valid()
      reads this
    {
      ListInvariant(head, tail, length, nodes, Addrs)
    }

    /** The payloads from head to tail. */
    ghost function Contents(): seq<T>
      requires Valid()
      reads this
    {
      Payloads(nodes, Addrs)
    }

    /** `new`: no head, no tail, length 0. */
    constructor ()
      ensures Valid() && Contents() == [] && head == None && tail == None && length == 0
    {
      head := None;
      tail := None;
      length := 0;
      nodes := map[];
      Addrs := [];
    }

    /** `length`: the counter, which always equals the number of payloads. */
    function Length(): (n: nat)
      requires Valid()
      reads this
      ensures n == |Contents()| == |Addrs|
    {
      length
    }

    /** `push_front`: a node at `addr` becomes the head; it becomes the tail too
        when the list was empty. */
    method PushFront(payload: T, addr: int)
      requires Valid() && addr !in Addrs
      modifies this
      ensures Valid()
      ensures Contents() == [payload] + old(Contents())
      ensures Addrs == [addr] + old(Addrs)
      ensures length == old(length) + 1 && head == Some(addr)
      ensures old(length) == 0 ==> tail == Some(addr)
      ensures old(length) > 0 ==> tail == old(tail)
    {
      PushFrontKeepsChain(nodes, Addrs, payload, addr);
      nodes := nodes[addr := ListNode(payload, head, None)];
      match head {
        case Some(h) =>
          nodes := nodes[h := nodes[h].(prev := Some(addr))];
        case None =>
          tail := Some(addr);
      }
      head := Some(addr);
      length := length + 1;
      Addrs := [addr] + Addrs;
      assert nodes == PushFrontNodes(old(nodes), Link(old(Addrs), 0), payload, addr);
    }

    /** `push_back`: a node at `addr` becomes the tail; it becomes the head too
        when the list was empty. */
    method PushBack(payload: T, addr: int)
      requires Valid() && addr !in Addrs
      modifies this
      ensures Valid()
      ensures Contents() == old(Contents()) + [payload]
      ensures Addrs == old(Addrs) + [addr]
      ensures length == old(length) + 1 && tail == Some(addr)
      ensures old(length) == 0 ==> head == Some(addr)
      ensures old(length) > 0 ==> head == old(head)
      ensures addr in nodes && nodes[addr].payload == payload && nodes[addr].next == None
    {
      PushBackKeepsChain(nodes, Addrs, payload, addr);
      nodes := nodes[addr := ListNode(payload, None, tail)];
      match tail {
        case Some(t) =>
          nodes := nodes[t := nodes[t].(next := Some(addr))];
        case None =>
          head := Some(addr);
      }
      tail := Some(addr);
      length := length + 1;
      Addrs := Addrs + [addr];
      assert nodes == PushBackNodes(old(nodes), Link(old(Addrs), |old(Addrs)| - 1), payload, addr);
    }

    /** Walks `index` links from the head: the address at that position, or
        None when a link runs out first. */
    method Walk(index: nat) returns (current: Option<int>)
      requires Valid()
      ensures current == Link(Addrs, index)
    {
      current := head;
      if current == None {
        return;
      }
      var count := 0;
      while count < index
        invariant count <= index && count < |Addrs|
        invariant current == Some(Addrs[count])
        decreases index - count
      {
        var n := nodes[current.value].next;
        if n == None {
          return None;
        }
        current := n;
        count := count + 1;
      }
    }

    /** `get_mut`: the payload at `index`, or None when the index is past the
        end. */
    method GetMut(index: nat) returns (r: Option<T>)
      requires Valid()
      ensures r.Some? <==> index < |Contents()|
      ensures r.Some? ==> r.value == Contents()[index]
    {
      var current := Walk(index);
      match current {
        case None => r := None;
        case Some(c) => r := Some(nodes[c].payload);
      }
    }

    /** `remove`: None and no change when `index >= length`; otherwise the
        payload and node address at `index`, unlinked so that the rest keep
        their order, with the length one lower and the node's own links
        cleared. */
    method Remove(index: nat) returns (r: Option<(T, int)>)
      requires Valid()
      modifies this
      ensures Valid()
      ensures index >= old(length) ==> r == None && Contents() == old(Contents()) && Addrs == old(Addrs)
      ensures index < old(length) ==>
                && r == Some((old(Contents())[index], old(Addrs)[index]))
                && Contents() == old(Contents())[..index] + old(Contents())[index + 1..]
                && Addrs == old(Addrs)[..index] + old(Addrs)[index + 1..]
                && length == old(length) - 1
                && old(Addrs)[index] in nodes
                && nodes[old(Addrs)[index]].next == None && nodes[old(Addrs)[index]].prev == None
    {
      if index >= length {
        return None;
      }
      var found := Walk(index);
      var current := found.value;
      var payload := Detach(index, current);
      r := Some((payload, current));
    }

    /** The part of `remove` after the walk: the node at position `index`,
        found at `current`, leaves the chain. */
    method Detach(index: nat, current: int) returns (payload: T)
      requires Valid() && index < |Addrs| && current == Addrs[index]
      modifies this
      ensures Valid()
      ensures payload == old(Contents())[index]
      ensures Contents() == old(Contents())[..index] + old(Contents())[index + 1..]
      ensures Addrs == old(Addrs)[..index] + old(Addrs)[index + 1..]
      ensures length == old(length) - 1
      ensures current in nodes && nodes[current].next == None && nodes[current].prev == None
    {
      var node := nodes[current];
      ghost var a := Addrs;
      ghost var n0 := nodes;
      RemoveKeepsList(n0, a, index);
      UpdateLinks(current);
      length := length - 1;
      nodes := nodes[current := node.(prev := None, next := None)];
      Addrs := a[..index] + a[index + 1..];
      assert nodes == UnlinkNodes(n0, current);
      payload := node.payload;
    }

    /** The link update inside `remove`: the neighbours of the node at `c`
        are linked to each other, and `head` or `tail` moves past it when it
        has no predecessor or no successor. */
    method UpdateLinks(c: int)
      requires c in nodes
      requires nodes[c].prev.Some? ==> nodes[c].prev.value in nodes
      requires nodes[c].next.Some? ==> nodes[c].next.value in nodes
      modifies this
      ensures nodes == RelinkNeighbours(old(nodes), c)
      ensures head == if old(nodes)[c].prev == None then old(nodes)[c].next else old(head)
      ensures tail == if old(nodes)[c].next == None then old(nodes)[c].prev else old(tail)
      ensures length == old(length) && Addrs == old(Addrs)
    {
      var node := nodes[c];
      match (node.prev, node.next) {
        case (Some(p), Some(n)) =>
          nodes := nodes[p := nodes[p].(next := Some(n))];
          nodes := nodes[n := nodes[n].(prev := Some(p))];
        case (Some(p), None) =>
          nodes := nodes[p := nodes[p].(next := None)];
          tail := node.prev;
        case (None, Some(n)) =>
          nodes := nodes[n := nodes[n].(prev := None)];
          head := Some(n);
        case (None, None) =>
          head := None;
          tail := None;
      }
    }

    /** `iter` with the iterator's `next`: the payloads, following `next` links
        from the head until a link is None. */
    method Iter() returns (items: seq<T>)
      requires Valid()
      ensures items == Contents()
    {
      items := [];
      var current := head;
      while current != None
        invariant |items| <= |Addrs|
        invariant current == Link(Addrs, |items|)
        invariant forall j :: 0 <= j < |items| ==> items[j] == nodes[Addrs[j]].payload
        decreases |Addrs| - |items|
      {
        var node := nodes[current.value];
        items := items + [node.payload];
        current := node.next;
      }
      assert |items| == |Addrs|;
    }
  }

  /** The list state `remove` leaves behind is valid and holds the old
      payloads without the removed one. */
  lemma RemoveKeepsList<T>(n0: map<int, ListNode<T>>, a: seq<int>, k: nat)
    requires ValidChain(n0, a) && k < |a|
    ensures var m := UnlinkNodes(n0, a[k]);
            var rest := a[..k] + a[k + 1..];
            && ListInvariant(if n0[a[k]].prev == None then n0[a[k]].next else Link(a, 0),
                             if n0[a[k]].next == None then n0[a[k]].prev else Link(a, |a| - 1),
                             |a| - 1, m, rest)
            && Payloads(m, rest) == Payloads(n0, a)[..k] + Payloads(n0, a)[k + 1..]
            && a[k] in m && m[a[k]].next == None && m[a[k]].prev == None
  {
    UnlinkKeepsChain(n0, a, k);
    RemovedNodeEnds(n0, a, k);
  }

  /** The new head and tail after `remove`: the removed node's successor
      when it had no predecessor, its predecessor when it had no successor,
      and otherwise the old ones. */
  lemma RemovedNodeEnds<T>(n0: map<int, ListNode<T>>, a: seq<int>, k: nat)
    requires ValidChain(n0, a) && k < |a|
    ensures var rest := a[..k] + a[k + 1..];
            && Link(rest, 0) == (if n0[a[k]].prev == None then n0[a[k]].next else Link(a, 0))
            && Link(rest, |rest| - 1) == (if n0[a[k]].next == None then n0[a[k]].prev else Link(a, |a| - 1))
  {
    var node := n0[a[k]];
    assert node.prev == Link(a, k - 1) && node.next == Link(a, k + 1);
    assert node.prev == None <==> k == 0;
    assert node.next == None <==> k == |a| - 1;
    RemovedEnds(a, k);
  }

  /** In a valid list the two directions agree: the `next` of every node
      names a node whose `prev` names it back. */
  lemma LinksAreMutual<T>(l: List<T>, a: int, b: int)
    requires l.Valid() && a in l.Addrs && a in l.nodes && l.nodes[a].next == Some(b)
    ensures b in l.Addrs && b in l.nodes && l.nodes[b].prev == Some(a)
  {
    var i :| 0 <= i < |l.Addrs| && l.Addrs[i] == a;
    assert l.Addrs[i + 1] == b;
  }
}
