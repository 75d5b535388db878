/** The netrace priority queue: a doubly linked list kept in order of priority. */
module NetQueue {
  import opened Options

  datatype Entry<T> = Entry(elem: T, prio: nat)

  ghost predicate Sorted<T>(q: seq<Entry<T>>) {
    forall i, j :: 0 <= i < j < |q| ==> q[i].prio <= q[j].prio
  }

  /** The new entry goes before the first one whose priority is not smaller. */
  function Place<T>(q: seq<Entry<T>>, prio: nat): (i: nat)
    ensures i <= |q| && (i < |q| ==> q[i].prio >= prio) && forall j :: 0 <= j < i ==> q[j].prio < prio
  {
    if q == [] || q[0].prio >= prio then 0 else 1 + Place(q[1..], prio)
  }

  function Pushed<T>(q: seq<Entry<T>>, elem: T, prio: nat): seq<Entry<T>> {
    var i := Place(q, prio);
    q[..i] + [Entry(elem, prio)] + q[i..]
  }

  /** The first entry with this element, or the length. */
  function Find<T(==)>(q: seq<Entry<T>>, elem: T): (i: nat)
    ensures i <= |q| && (i < |q| ==> q[i].elem == elem) && forall j :: 0 <= j < i ==> q[j].elem != elem
  {
    if q == [] || q[0].elem == elem then 0 else 1 + Find(q[1..], elem)
  }

  function Removed<T(==)>(q: seq<Entry<T>>, elem: T): seq<Entry<T>> {
    var i := Find(q, elem);
    if i < |q| then q[..i] + q[i + 1..] else q
  }

  /** Pushing keeps the order and adds exactly the new entry. */
  lemma PushSorted<T>(q: seq<Entry<T>>, elem: T, prio: nat)
    requires Sorted(q)
    ensures Sorted(Pushed(q, elem, prio)) && multiset(Pushed(q, elem, prio)) == multiset(q) + multiset{Entry(elem, prio)}
  {
    hide Place;
    var i := Place(q, prio);
    assert q == q[..i] + q[i..];
    forall j | i <= j < |q| ensures prio <= q[j].prio { assert j == i || q[i].prio <= q[j].prio; }
    SplitSorted(q, i, Entry(elem, prio));
  }

  lemma SplitSorted<T>(q: seq<Entry<T>>, i: nat, e: Entry<T>)
    requires Sorted(q) && i <= |q|
    requires (forall j :: 0 <= j < i ==> q[j].prio <= e.prio) && (forall j :: i <= j < |q| ==> e.prio <= q[j].prio)
    ensures Sorted(q[..i] + [e] + q[i..])
  {
    var r := q[..i] + [e] + q[i..];
    forall a, b | 0 <= a < b < |r| ensures r[a].prio <= r[b].prio {
      var a', b' := if a > i then a - 1 else a, if b > i then b - 1 else b;
      assert a != i ==> r[a] == q[a'];
      assert b != i ==> r[b] == q[b'];
    }
  }

  /** Removing keeps the order and takes out one entry with the element, if there is one. */
  lemma RemoveSorted<T>(q: seq<Entry<T>>, elem: T)
    requires Sorted(q)
    ensures Sorted(Removed(q, elem))
    ensures var i := Find(q, elem);
      multiset(q) == multiset(Removed(q, elem)) + if i < |q| then multiset{q[i]} else multiset{}
  {
    hide Find, Sorted;
    var i := Find(q, elem);
    if i < |q| {
      assert q == q[..i] + [q[i]] + q[i + 1..];
      MultisetDrop(q[..i], q[i], q[i + 1..]);
      DropSorted(q, i);
    }
  }

  lemma MultisetDrop<T>(s: seq<T>, x: T, t: seq<T>)
    ensures multiset(s + [x] + t) == multiset(s + t) + multiset{x}
  {
  }

  lemma DropSorted<T>(q: seq<Entry<T>>, i: nat)
    requires Sorted(q) && i < |q|
    ensures Sorted(q[..i] + q[i + 1..])
  {
    var r := q[..i] + q[i + 1..];
    forall a, b | 0 <= a < b < |r| ensures r[a].prio <= r[b].prio {
      var a', b' := if a >= i then a + 1 else a, if b >= i then b + 1 else b;
      assert r[a] == q[a'];
      assert r[b] == q[b'];
    }
  }

  /** The earliest entry is at the head: while the head is not due, nothing is. */
  lemma HeadEarliest<T>(q: seq<Entry<T>>, now: nat)
    requires Sorted(q) && q != []
    ensures q[0].prio > now <==> forall e :: e in q ==> e.prio > now
  {
    forall e | e in q ensures q[0].prio <= e.prio {
      var j :| 0 <= j < |q| && q[j] == e;
    }
    assert q[0] in q;
  }

  // ---------- the linked list ----------

  class Node<T> {
    var prev: Node?<T>
    var next: Node?<T>
    const prio: nat
    const elem: T

    constructor (elem: T, prio: nat)
      ensures this.elem == elem && this.prio == prio && prev == null && next == null
    {
      this.elem := elem;
      this.prio := prio;
      prev, next := null, null;
    }
  }

  ghost function Entries<T>(nodes: seq<Node<T>>): (s: seq<Entry<T>>)
    ensures |s| == |nodes| && forall i :: 0 <= i < |s| ==> s[i] == Entry(nodes[i].elem, nodes[i].prio)
  {
    seq(|nodes|, i requires 0 <= i < |nodes| => Entry(nodes[i].elem, nodes[i].prio))
  }

  lemma EntriesInsert<T>(s: seq<Node<T>>, i: nat, n: Node<T>)
    requires i <= |s|
    ensures Entries(s[..i] + [n] + s[i..]) == Entries(s)[..i] + [Entry(n.elem, n.prio)] + Entries(s)[i..]
  {
  }

  lemma EntriesDrop<T>(s: seq<Node<T>>, i: nat)
    requires i < |s|
    ensures Entries(s[..i] + s[i + 1..]) == Entries(s)[..i] + Entries(s)[i + 1..]
  {
  }

  class Queue<T(==)> {
    var head: Node?<T>
    var tail: Node?<T>
    /** The nodes from head to tail. */
    ghost var nodes: seq<Node<T>>
    /** Since the queue was last empty, `PopFront` has left a `prev` in the head that means nothing. */
    ghost var popped: bool

    ghost predicate Valid()
      reads this, nodes
    {
      && (forall i, j :: 0 <= i < j < |nodes| ==> nodes[i] != nodes[j])
      && (forall i, j :: 0 <= i < j < |nodes| && j == i + 1 ==> nodes[i].next == nodes[j] && nodes[j].prev == nodes[i])
      && (nodes != [] ==> nodes[|nodes| - 1].next == null)
      && head == (if nodes == [] then null else nodes[0])
      && tail == (if nodes == [] then null else nodes[|nodes| - 1])
      && (nodes != [] && !popped ==> nodes[0].prev == null)
    }

    ghost function Contents(): (s: seq<Entry<T>>)
      reads this
      ensures |s| == |nodes|
    {
      Entries(nodes)
    }

    constructor ()
      ensures Valid() && Contents() == [] && !popped
    {
      head, tail, nodes, popped := null, null, [], false;
    }

    method Empty() returns (r: bool)
      requires Valid()
      ensures r <==> Contents() == []
    {
      r := head == null;
    }

    /** `queue_peek_front`; the element's own time is the priority it was pushed with. */
    method PeekFront() returns (e: Option<Entry<T>>)
      requires Valid()
      ensures e == if Contents() == [] then None else Some(Contents()[0])
    {
      e := if head != null then Some(Entry(head.elem, head.prio)) else None;
    }

    /** `queue_push`. */
    method Push(elem: T, prio: nat)
      requires Valid()
      modifies this, nodes
      ensures Valid() && Contents() == Pushed(old(Contents()), elem, prio)
      ensures popped == (old(popped) && old(Contents()) != [])
      ensures forall n :: n in nodes && n !in old(nodes) ==> fresh(n)
    {
      if head == null {
        head := new Node(elem, prio);
        tail, nodes, popped := head, [head], false;
      } else {
        var toAdd := new Node(elem, prio);
        var behind, i := FindBehind(prio);
        EntriesInsert(nodes, i, toAdd);
        hide Entries;
        Link(toAdd, behind, i);
      }
    }

    /** The node the new one goes before. */
    method FindBehind(prio: nat) returns (behind: Node?<T>, ghost i: nat)
      requires Valid() && nodes != []
      ensures i == Place(Contents(), prio) && behind == if i < |nodes| then nodes[i] else null
    {
      behind, i := head, 0;
      while behind != null && behind.prio < prio
        invariant 0 <= i <= |nodes| && behind == if i < |nodes| then nodes[i] else null
        invariant forall j :: 0 <= j < i ==> nodes[j].prio < prio
        decreases |nodes| - i
      {
        assert i + 1 < |nodes| ==> nodes[i].next == nodes[i + 1];
        behind := behind.next;
        i := i + 1;
      }
      PlaceUnique(Contents(), prio, i);
    }

    /** `toAdd` goes before `behind`, which is node `i`, or at the end. */
    method Link(toAdd: Node<T>, behind: Node?<T>, ghost i: nat)
      requires Valid() && nodes != [] && toAdd !in nodes && i <= |nodes|
      requires behind == if i < |nodes| then nodes[i] else null
      modifies this, nodes, toAdd
      ensures Valid() && nodes == old(nodes[..i]) + [toAdd] + old(nodes[i..]) && popped == old(popped)
    {
      toAdd.next := behind;
      if behind == null {
        LinkLast(toAdd);
      } else if behind == head {
        toAdd.prev := behind.prev;
        behind.prev := toAdd;
        head := toAdd;
        nodes := [toAdd] + nodes;
        assert forall k {:trigger nodes[k]} :: 1 <= k < |nodes| ==> nodes[k] == old(nodes)[k - 1];
      } else {
        LinkBetween(toAdd, behind, i);
      }
    }

    method LinkLast(toAdd: Node<T>)
      requires Valid() && nodes != [] && toAdd !in nodes && toAdd.next == null
      modifies this, nodes, toAdd
      ensures Valid() && nodes == old(nodes) + [toAdd] && popped == old(popped)
    {
      assert nodes[|nodes| - 1] in nodes;
      toAdd.prev := tail;
      tail.next := toAdd;
      tail := toAdd;
      nodes := nodes + [toAdd];
    }

    method LinkBetween(toAdd: Node<T>, behind: Node<T>, ghost i: nat)
      requires Valid() && toAdd !in nodes && 0 < i < |nodes| && behind == nodes[i] && toAdd.next == behind
      modifies nodes, toAdd, this`nodes
      ensures Valid() && nodes == old(nodes[..i]) + [toAdd] + old(nodes[i..])
    {
      assert nodes[i].prev == nodes[i - 1] && nodes[i - 1] in nodes && nodes[i] in nodes;
      toAdd.prev := behind.prev;
      toAdd.prev.next := toAdd;
      behind.prev := toAdd;
      ghost var before := nodes;
      nodes := nodes[..i] + [toAdd] + nodes[i..];
      assert forall k :: 0 <= k < i ==> nodes[k] == before[k];
      assert nodes[i] == toAdd;
      assert forall k {:trigger nodes[k]} :: i < k < |nodes| ==> nodes[k] == before[k - 1];
    }

    /** `queue_pop_front`: the new head keeps the `prev` it had. */
    method PopFront() returns (e: Option<T>)
      requires Valid()
      modifies this
      ensures Valid()
      ensures e == if old(Contents()) == [] then None else Some(old(Contents())[0].elem)
      ensures Contents() == if old(Contents()) == [] then [] else old(Contents())[1..]
      ensures nodes == if old(nodes) == [] then [] else old(nodes)[1..]
      ensures popped <==> old(popped) || old(nodes) != []
    {
      if head == null { return None; }
      e := Some(head.elem);
      head := head.next;
      if head == null { tail := null; }
      ghost var before := nodes;
      nodes, popped := nodes[1..], true;
      assert forall k {:trigger nodes[k]} :: 0 <= k < |nodes| ==> nodes[k] == before[k + 1];
    }

    /** `queue_remove`, on a queue that has not been popped since it was last empty. */
    method Remove(elem: T)
      requires Valid() && !popped
      modifies this, nodes
      ensures Valid() && Contents() == Removed(old(Contents()), elem) && !popped
      ensures var i := Find(old(Contents()), elem);
        nodes == if i < |old(nodes)| then old(nodes)[..i] + old(nodes)[i + 1..] else old(nodes)
      ensures forall n :: n in nodes ==> n in old(nodes)
    {
      var temp, i := FindNode(elem);
      if temp != null {
        EntriesDrop(nodes, i);
        hide Entries, Find, Queue.Valid;
        assert nodes[i] in nodes;
        Unlink(temp, i);
      }
    }

    method FindNode(elem: T) returns (temp: Node?<T>, ghost i: nat)
      requires Valid()
      ensures i == Find(Contents(), elem) && temp == if i < |nodes| then nodes[i] else null
    {
      temp, i := head, 0;
      while temp != null && temp.elem != elem
        invariant 0 <= i <= |nodes| && temp == if i < |nodes| then nodes[i] else null
        invariant forall j :: 0 <= j < i ==> nodes[j].elem != elem
        decreases |nodes| - i
      {
        assert i + 1 < |nodes| ==> nodes[i].next == nodes[i + 1];
        temp := temp.next;
        i := i + 1;
      }
      FindUnique(Contents(), elem, i);
    }

    /** `temp`, node `i`, leaves the list. */
    method Unlink(temp: Node<T>, ghost i: nat)
      requires Valid() && !popped && i < |nodes| && temp == nodes[i]
      modifies this, nodes`prev, nodes`next
      ensures Valid() && nodes == old(nodes[..i]) + old(nodes[i + 1..]) && !popped
    {
      assert i + 1 < |nodes| ==> nodes[i].next == nodes[i + 1] && nodes[i + 1] in nodes;
      assert 0 < i ==> nodes[i].prev == nodes[i - 1] && nodes[i - 1] in nodes;
      ghost var before := nodes;
      if temp.prev == null {
        if temp.next == null {
          head, tail := null, null;
        } else {
          head := temp.next;
          temp.next.prev := null;
        }
      } else {
        temp.prev.next := temp.next;
        if temp.next != null {
          temp.next.prev := temp.prev;
        } else {
          tail := temp.prev;
        }
      }
      nodes := nodes[..i] + nodes[i + 1..];
      assert forall k :: 0 <= k < i ==> nodes[k] == before[k];
      assert forall k {:trigger nodes[k]} :: i <= k < |nodes| ==> nodes[k] == before[k + 1];
    }
  }

  lemma PlaceUnique<T>(q: seq<Entry<T>>, prio: nat, i: nat)
    requires i <= |q| && (i < |q| ==> q[i].prio >= prio) && forall j :: 0 <= j < i ==> q[j].prio < prio
    ensures Place(q, prio) == i
  {
  }

  lemma FindUnique<T>(q: seq<Entry<T>>, elem: T, i: nat)
    requires i <= |q| && (i < |q| ==> q[i].elem == elem) && forall j :: 0 <= j < i ==> q[j].elem != elem
    ensures Find(q, elem) == i
  {
  }
}
