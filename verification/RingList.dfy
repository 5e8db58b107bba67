// Intrusive doubly linked rings.  A list is a ring of nodes that includes its
// head; a detached node has null links or forms a ring of its own.
module RingList {
  import opened Basics

  class Node {
    var prev: Node?
    var next: Node?
    constructor ()
      ensures prev == null && next == null
    {
      prev, next := null, null;
    }
  }

  // The index after i, around a ring of n nodes.
  function After(i: nat, n: nat): nat {
    if i + 1 == n then 0 else i + 1
  }

  // The nodes are linked in order, forwards and backwards.
  ghost predicate Linked(ring: seq<Node>, i: nat)
    requires i < |ring|
    reads ring
  {
    ring[i].next == ring[After(i, |ring|)] && ring[After(i, |ring|)].prev == ring[i]
  }

  ghost predicate IsRing(ring: seq<Node>)
    reads ring
  {
    && ring != [] && Distinct(ring)
    && forall i :: 0 <= i < |ring| ==> Linked(ring, i)
  }

  // Any node may be taken as the first.
  function Rotated(ring: seq<Node>, k: nat): seq<Node>
    requires k <= |ring|
  {
    ring[k..] + ring[..k]
  }

  lemma RotationIsRing(ring: seq<Node>, k: nat)
    requires IsRing(ring) && k < |ring|
    ensures IsRing(Rotated(ring, k)) && Rotated(ring, k)[0] == ring[k]
  {
    var r, n := Rotated(ring, k), |ring|;
    forall i | 0 <= i < n
      ensures Linked(r, i)
    {
      var j := if i + k < n then i + k else i + k - n;
      assert r[i] == ring[j] && r[After(i, n)] == ring[After(j, n)];
      assert Linked(ring, j);
    }
  }

  // The node before the first is the last.
  lemma PrevOfFirst(ring: seq<Node>)
    requires IsRing(ring)
    ensures ring[0].prev == ring[|ring| - 1]
  {
    assert Linked(ring, |ring| - 1);
  }

  lemma PrevOf(ring: seq<Node>, k: nat)
    requires IsRing(ring) && 1 <= k < |ring|
    ensures ring[k].prev == ring[k - 1]
  {
    assert Linked(ring, k - 1);
  }

  ghost predicate Detached(elm: Node)
    reads elm
  {
    (elm.next == null && elm.prev == null) || (elm.next == elm && elm.prev == elm)
  }

  method ListInit(list: Node)
    modifies list
    ensures IsRing([list])
  {
    list.prev := list;
    list.next := list;
  }

  // Insert a node after the first.
  method ListInsert(list: Node, elm: Node, ghost ring: seq<Node>)
    requires IsRing(ring) && ring[0] == list && elm !in ring && Detached(elm)
    modifies elm, list, list.next
    ensures IsRing([list, elm] + ring[1..])
  {
    assert Linked(ring, 0);
    elm.prev := list;
    elm.next := list.next;
    list.next := elm;
    elm.next.prev := elm;
    ghost var r := [list, elm] + ring[1..];
    forall i | 0 <= i < |r|
      ensures Linked(r, i)
    {
      assert old(IsRing(ring));
      assert i >= 2 ==> r[i] == ring[i - 1] && old(Linked(ring, i - 1));
    }
  }

  // Insert a node before the first, that is, at the end.
  method ListAppend(list: Node, elm: Node, ghost ring: seq<Node>)
    requires IsRing(ring) && ring[0] == list && elm !in ring && Detached(elm)
    modifies elm, list, list.prev
    ensures IsRing(ring + [elm])
  {
    PrevOfFirst(ring);
    elm.next := list;
    elm.prev := list.prev;
    list.prev := elm;
    elm.prev.next := elm;
    ghost var r := ring + [elm];
    forall i | 0 <= i < |r|
      ensures Linked(r, i)
    {
      assert old(IsRing(ring));
      assert i < |ring| ==> r[i] == ring[i] && old(Linked(ring, i));
    }
  }

  // Take a node out of the ring it is in.
  method ListRemove(elm: Node, ghost ring: seq<Node>, ghost k: nat)
    requires IsRing(ring) && k < |ring| && ring[k] == elm
    modifies elm, elm.prev, elm.next
    ensures elm.next == null && elm.prev == null
    ensures |ring| > 1 ==> IsRing(ring[..k] + ring[k + 1..])
  {
    assert Linked(ring, k);
    if k > 0 {
      PrevOf(ring, k);
    } else {
      PrevOfFirst(ring);
    }
    elm.prev.next := elm.next;
    elm.next.prev := elm.prev;
    elm.next := null;
    elm.prev := null;
    ghost var r := ring[..k] + ring[k + 1..];
    forall i | 0 <= i < |r|
      ensures Linked(r, i)
    {
      var j := if i < k then i else i + 1;
      assert r[i] == ring[j];
      assert old(IsRing(ring));
      assert old(Linked(ring, j)) && old(Linked(ring, k));
    }
  }

  method ListEmpty(list: Node, ghost ring: seq<Node>) returns (empty: bool)
    requires IsRing(ring) && ring[0] == list
    ensures empty <==> ring == [list]
  {
    assert Linked(ring, 0);
    empty := list.next == list;
  }

  method ListIsLast(list: Node, elm: Node, ghost ring: seq<Node>) returns (last: bool)
    requires IsRing(ring) && ring[0] == list && elm in ring
    ensures last <==> elm == ring[|ring| - 1]
  {
    ghost var k :| 0 <= k < |ring| && ring[k] == elm;
    assert Linked(ring, k);
    last := elm.next == list;
  }

  // What is left of a ring after the first v nodes behind the head are gone.
  ghost function Remaining(ring: seq<Node>, v: nat): seq<Node>
    requires 1 + v <= |ring|
  {
    [ring[0]] + ring[1 + v..]
  }

  // The node behind the head.
  ghost function Behind(ring: seq<Node>, v: nat): Node
    requires 1 + v <= |ring|
  {
    if 1 + v < |ring| then ring[1 + v] else ring[0]
  }

  lemma FirstLinks(ring: seq<Node>, v: nat)
    requires 1 + v <= |ring| && IsRing(Remaining(ring, v))
    ensures ring[0].next == Behind(ring, v)
    ensures 1 + v < |ring| ==>
              && Behind(ring, v).prev == ring[0]
              && Behind(ring, v).next == Behind(ring, v + 1)
    ensures Behind(ring, v).next != null
  {
    var rest := Remaining(ring, v);
    assert Linked(rest, 0);
    if 1 + v < |ring| {
      assert Linked(rest, 1);
    }
  }

  // The first v nodes behind the head are unlinked.
  ghost predicate Gone(ring: seq<Node>, v: nat)
    requires 1 + v <= |ring|
    reads ring
  {
    forall i :: 1 <= i < 1 + v ==> ring[i].next == null && ring[i].prev == null
  }

  // One round of the loop: unlink the node behind the head.
  method RemoveFirst(pos: Node, ghost ring: seq<Node>, ghost v: nat)
    requires Distinct(ring) && 1 + v < |ring| && IsRing(Remaining(ring, v)) && pos == Behind(ring, v) && Gone(ring, v)
    modifies pos, ring[0], Behind(ring, v + 1)
    ensures IsRing(Remaining(ring, v + 1)) && Gone(ring, v + 1)
  {
    ghost var rest := Remaining(ring, v);
    FirstLinks(ring, v);
    ListRemove(pos, rest, 1);
    assert rest[..1] + rest[2..] == Remaining(ring, v + 1);
  }

  // Where the safe loop stands after v nodes.
  ghost predicate Halfway(ring: seq<Node>, v: nat, pos: Node, tmp: Node?)
    reads ring
  {
    && 1 + v <= |ring| && Distinct(ring) && IsRing(Remaining(ring, v)) && Gone(ring, v)
    && pos == Behind(ring, v) && tmp == pos.next
  }

  // One round, and the step of the safe loop.
  method Round(pos: Node, tmp: Node?, ghost ring: seq<Node>, ghost v: nat) returns (pos': Node, tmp': Node?)
    requires Halfway(ring, v, pos, tmp) && pos != ring[0]
    modifies ring
    ensures Halfway(ring, v + 1, pos', tmp')
  {
    FirstLinks(ring, v);
    RemoveFirst(pos, ring, v);
    FirstLinks(ring, v + 1);
    pos', tmp' := tmp, tmp.next;
  }

  // The visited nodes are those behind the head, in order.
  ghost predicate InOrder(ring: seq<Node>, visited: seq<Node>) {
    1 + |visited| <= |ring| && forall i :: 0 <= i < |visited| ==> visited[i] == ring[1 + i]
  }

  lemma InOrderNext(ring: seq<Node>, visited: seq<Node>)
    requires InOrder(ring, visited) && 1 + |visited| < |ring|
    ensures InOrder(ring, visited + [Behind(ring, |visited|)])
  {
  }

  // The safe loop over a list whose body removes the current node: it visits
  // every node once, in order, and leaves the list empty.
  method RemoveAll(head: Node, ghost ring: seq<Node>) returns (visited: seq<Node>)
    requires IsRing(ring) && ring[0] == head
    modifies ring
    ensures visited == ring[1..]
    ensures IsRing([head])
    ensures forall i :: 1 <= i < |ring| ==> ring[i].next == null && ring[i].prev == null
  {
    visited := [];
    assert Remaining(ring, 0) == ring;
    FirstLinks(ring, 0);
    var pos: Node, tmp: Node? := head.next, head.next.next;
    while pos != head
      invariant Halfway(ring, |visited|, pos, tmp) && InOrder(ring, visited)
      decreases |ring| - |visited|
    {
      ghost var v := |visited|;
      InOrderNext(ring, visited);
      visited := visited + [pos];
      pos, tmp := Round(pos, tmp, ring, v);
    }
    assert |visited| == |ring| - 1;
    assert Remaining(ring, |visited|) == [head];
    assert visited == ring[1..];
  }
}
