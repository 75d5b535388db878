/** One queue per node: linked lists that share nothing. */
module NetQueueBank {
  import opened Options
  import opened NetQueue

  class Bank {
    const queues: seq<Queue<nat>>
    ghost var repr: set<object>

    ghost predicate Valid()
      reads this, repr
    {
      && this in repr
      && (forall i :: 0 <= i < |queues| ==> queues[i] in repr)
      && (forall i, n :: 0 <= i < |queues| && n in queues[i].nodes ==> n in repr)
      && (forall i :: 0 <= i < |queues| ==> queues[i].Valid())
      && (forall i, j :: 0 <= i < j < |queues| ==> queues[i] != queues[j])
      && (forall i, j, n :: 0 <= i < j < |queues| && n in queues[i].nodes ==> n !in queues[j].nodes)
    }

    ghost function Contents(): (s: seq<seq<Entry<nat>>>)
      requires Valid()
      reads this, repr
      ensures |s| == |queues|
    {
      seq(|queues|, i requires 0 <= i < |queues| && Valid() reads this, repr => queues[i].Contents())
    }

    /** No queue has been popped. */
    ghost predicate Unpopped()
      requires Valid()
      reads this, repr
    {
      forall i :: 0 <= i < |queues| ==> !queues[i].popped
    }

    constructor (count: nat)
      ensures Valid() && fresh(repr) && |queues| == count && Unpopped()
      ensures Contents() == seq(count, i => [])
    {
      var qs: seq<Queue<nat>> := [];
      while |qs| < count
        invariant |qs| <= count
        invariant forall i :: 0 <= i < |qs| ==> fresh(qs[i]) && qs[i].nodes == [] && qs[i].Valid() && !qs[i].popped
        invariant forall i, j :: 0 <= i < j < |qs| ==> qs[i] != qs[j]
      {
        var q := new Queue<nat>();
        qs := qs + [q];
      }
      queues := qs;
      new;
      repr := {this} + set q: object | q in qs;
    }

    method Empty(i: nat) returns (r: bool)
      requires Valid() && i < |queues|
      ensures r <==> Contents()[i] == []
    {
      r := queues[i].Empty();
    }

    method PeekFront(i: nat) returns (e: Option<Entry<nat>>)
      requires Valid() && i < |queues|
      ensures e == if Contents()[i] == [] then None else Some(Contents()[i][0])
    {
      e := queues[i].PeekFront();
    }

    /** Node `j` of queue `i`, null behind the last one. */
    ghost function NodeAt(i: nat, j: nat): (node: Node?<nat>)
      requires Valid() && i < |queues|
      reads this, repr
      ensures node == null <==> j >= |Contents()[i]|
    {
      if j < |queues[i].nodes| then queues[i].nodes[j] else null
    }

    method Head(i: nat) returns (node: Node?<nat>)
      requires Valid() && i < |queues|
      ensures node == NodeAt(i, 0)
    {
      node := queues[i].head;
    }

    /** A node's element, and the node behind it. */
    method Next(i: nat, node: Node<nat>, ghost j: nat) returns (elem: nat, next: Node?<nat>)
      requires Valid() && i < |queues| && node == NodeAt(i, j)
      ensures j < |Contents()[i]| && elem == Contents()[i][j].elem && next == NodeAt(i, j + 1)
    {
      assert j + 1 < |queues[i].nodes| ==> queues[i].nodes[j].next == queues[i].nodes[j + 1];
      elem := node.elem;
      next := node.next;
    }

    method Push(i: nat, elem: nat, prio: nat)
      requires Valid() && i < |queues|
      modifies repr
      ensures Valid() && fresh(repr - old(repr)) && old(repr) <= repr
      ensures Contents() == old(Contents())[i := Pushed(old(Contents())[i], elem, prio)]
      ensures old(Unpopped()) ==> Unpopped()
    {
      hide Pushed;
      queues[i].Push(elem, prio);
      forall j | 0 <= j < |queues| && j != i
        ensures queues[j].Valid() && queues[j].nodes == old(queues[j].nodes) && queues[j].popped == old(queues[j].popped)
      {
        assert queues[j] != queues[i] by { assert i < j || j < i; }
        assert queues[j].nodes == old(queues[j].nodes);
        forall n | n in queues[j].nodes ensures n.prev == old(n.prev) && n.next == old(n.next) {
          assert n !in old(queues[i].nodes) by { assert i < j || j < i; }
        }
        assert old(queues[j].Valid());
      }
      hide Queue.Valid;
      repr := repr + set n: object | n in queues[i].nodes;
    }

    method PopFront(i: nat) returns (elem: Option<nat>)
      requires Valid() && i < |queues|
      modifies repr
      ensures Valid() && repr == old(repr)
      ensures var q := old(Contents())[i];
        && elem == (if q == [] then None else Some(q[0].elem))
        && Contents() == old(Contents())[i := if q == [] then [] else q[1..]]
    {
      hide Entries;
      elem := queues[i].PopFront();
      forall j | 0 <= j < |queues| && j != i
        ensures queues[j].Valid() && queues[j].nodes == old(queues[j].nodes)
      {
        assert queues[j] != queues[i] by { assert i < j || j < i; }
        assert old(queues[j].Valid());
      }
      assert forall n :: n in queues[i].nodes ==> n in old(queues[i].nodes);
      hide Queue.Valid, Queue.Contents;
    }

    method Remove(i: nat, elem: nat)
      requires Valid() && Unpopped() && i < |queues|
      modifies repr
      ensures Valid() && Unpopped() && repr == old(repr)
      ensures Contents() == old(Contents())[i := Removed(old(Contents())[i], elem)]
      ensures forall j :: j >= Find(old(Contents())[i], elem) ==> NodeAt(i, j) == old(NodeAt(i, j + 1))
    {
      hide Removed, Find, Entries;
      queues[i].Remove(elem);
      forall j | 0 <= j < |queues| && j != i
        ensures queues[j].Valid() && queues[j].nodes == old(queues[j].nodes) && queues[j].popped == old(queues[j].popped)
      {
        assert queues[j] != queues[i] by { assert i < j || j < i; }
        assert queues[j].nodes == old(queues[j].nodes);
        forall n | n in queues[j].nodes ensures n.prev == old(n.prev) && n.next == old(n.next) {
          assert n !in old(queues[i].nodes) by { assert i < j || j < i; }
        }
        assert old(queues[j].Valid());
      }
      forall j | j >= Find(old(Contents())[i], elem) ensures NodeAt(i, j) == old(NodeAt(i, j + 1)) {
      }
      hide Queue.Valid, Queue.Contents;
    }
  }
}
