/**
  Tail queues (the TAILQ macros of queue.h).  A queue is described by the sequence of its
  links, the head first; the elements are the rest of the sequence.
 */
module TailQueue {
  import opened Links

  ghost predicate IsQueue(all: seq<Link>)
    reads all
  {
    && Chained(all)
    && Distinct(all)
    && (forall i {:trigger all[i].prev} :: 0 < i < |all| ==> all[i].prev == all[i - 1])
    && all[0].prev == all[|all| - 1]
  }

  /** TAILQ_INIT */
  method Init(head: Link)
    modifies head
    ensures IsQueue([head])
  {
    head.next := null;
    head.prev := head;
  }

  /** TAILQ_EMPTY */
  method Empty(head: Link, ghost all: seq<Link>) returns (empty: bool)
    requires IsQueue(all) && all[0] == head
    ensures empty <==> all[1..] == []
  {
    empty := head.next == null;
  }

  /** TAILQ_LAST: the head of the queue is read as if it were an element, and the other way round. */
  method Last(head: Link, ghost all: seq<Link>) returns (last: Link?)
    requires IsQueue(all) && all[0] == head
    ensures last == if |all| == 1 then null else all[|all| - 1]
  {
    last := head.prev.prev.next;
  }

  /** TAILQ_PREV */
  method Prev(elm: Link, ghost all: seq<Link>, ghost k: nat) returns (previous: Link?)
    requires IsQueue(all) && 0 < k < |all| && all[k] == elm
    ensures previous == if k == 1 then null else all[k - 1]
  {
    previous := elm.prev.prev.next;
  }

  /** TAILQ_FOREACH: visits the elements in order. */
  method Forward(head: Link, ghost all: seq<Link>) returns (visited: seq<Link>)
    requires IsQueue(all) && all[0] == head
    ensures visited == all[1..]
  {
    visited := [];
    var v := head.next;
    ghost var k := 1;
    while v != null
      invariant 1 <= k <= |all|
      invariant v == if k == |all| then null else all[k]
      invariant visited == all[1..k]
      decreases |all| - k
    {
      visited := visited + [v];
      v := v.next;
      k := k + 1;
    }
  }

  /** TAILQ_FOREACH_REVERSE: visits exactly the reversal of the forward traversal. */
  method Backward(head: Link, ghost all: seq<Link>) returns (visited: seq<Link>)
    requires IsQueue(all) && all[0] == head
    ensures visited == Reverse(all[1..])
  {
    visited := [];
    var v := Last(head, all);
    ghost var k := |all|;
    while v != null
      invariant 1 <= k <= |all|
      invariant v == if k == 1 then null else all[k - 1]
      invariant visited == Reverse(all[k..])
      decreases k
    {
      assert all[k - 1..][1..] == all[k..];
      visited := visited + [v];
      v := Prev(v, all, k - 1);
      k := k - 1;
    }
  }

  /** TAILQ_INSERT_HEAD */
  method InsertHead(head: Link, elm: Link, ghost all: seq<Link>)
    requires IsQueue(all) && all[0] == head && elm !in all
    modifies all, elm
    ensures IsQueue(InsertAt(all, 1, elm))
  {
    elm.next := head.next;
    if elm.next != null {
      head.next.prev := elm;
    } else {
      head.prev := elm;
    }
    head.next := elm;
    elm.prev := head;
  }

  /** TAILQ_INSERT_TAIL */
  method InsertTail(head: Link, elm: Link, ghost all: seq<Link>)
    requires IsQueue(all) && all[0] == head && elm !in all
    modifies all, elm
    ensures IsQueue(InsertAt(all, |all|, elm))
  {
    elm.next := null;
    elm.prev := head.prev;
    head.prev.next := elm;
    head.prev := elm;
  }

  /** TAILQ_INSERT_AFTER */
  method InsertAfter(head: Link, listelm: Link, elm: Link, ghost all: seq<Link>, ghost k: nat)
    requires IsQueue(all) && all[0] == head && elm !in all
    requires 0 < k < |all| && all[k] == listelm
    modifies all, elm
    ensures IsQueue(InsertAt(all, k + 1, elm))
  {
    elm.next := listelm.next;
    if elm.next != null {
      elm.next.prev := elm;
    } else {
      head.prev := elm;
    }
    listelm.next := elm;
    elm.prev := listelm;
  }

  /** TAILQ_INSERT_BEFORE, which does not need the head. */
  method InsertBefore(listelm: Link, elm: Link, ghost all: seq<Link>, ghost k: nat)
    requires IsQueue(all) && elm !in all
    requires 0 < k < |all| && all[k] == listelm
    modifies all, elm
    ensures IsQueue(InsertAt(all, k, elm))
  {
    elm.prev := listelm.prev;
    elm.next := listelm;
    listelm.prev.next := elm;
    listelm.prev := elm;
  }

  /** TAILQ_REMOVE */
  method Remove(head: Link, elm: Link, ghost all: seq<Link>, ghost k: nat)
    requires IsQueue(all) && all[0] == head
    requires 0 < k < |all| && all[k] == elm
    modifies all
    ensures IsQueue(RemoveAt(all, k))
    ensures elm.next == old(elm.next) && elm.prev == old(elm.prev)
  {
    if elm.next != null {
      elm.next.prev := elm.prev;
    } else {
      head.prev := elm.prev;
    }
    elm.prev.next := elm.next;
  }

  /** TAILQ_CONCAT: the second queue's elements move to the end of the first. */
  method Concat(head1: Link, head2: Link, ghost all1: seq<Link>, ghost all2: seq<Link>)
    requires IsQueue(all1) && all1[0] == head1 && IsQueue(all2) && all2[0] == head2
    requires Disjoint(all1, all2)
    modifies all1, all2
    ensures IsQueue(all1 + all2[1..]) && IsQueue([head2])
  {
    var empty := Empty(head2, all2);
    if !empty {
      head1.prev.next := head2.next;
      head2.next.prev := head1.prev;
      head1.prev := head2.prev;
      Init(head2);
    }
  }

  /** TAILQ_SWAP: the two heads trade their elements. */
  method Swap(head1: Link, head2: Link, ghost all1: seq<Link>, ghost all2: seq<Link>)
    requires IsQueue(all1) && all1[0] == head1 && IsQueue(all2) && all2[0] == head2
    requires Disjoint(all1, all2)
    modifies all1, all2
    ensures IsQueue([head1] + all2[1..]) && IsQueue([head2] + all1[1..])
  {
    var swapFirst, swapLast := head1.next, head1.prev;
    head1.next := head2.next;
    head1.prev := head2.prev;
    head2.next := swapFirst;
    head2.prev := swapLast;
    swapFirst := head1.next;
    if swapFirst != null {
      swapFirst.prev := head1;
    } else {
      head1.prev := head1;
    }
    swapFirst := head2.next;
    if swapFirst != null {
      swapFirst.prev := head2;
    } else {
      head2.prev := head2;
    }
  }
}
