/**
  Singly linked tail queues (the STAILQ macros of queue.h).  Only the head has a `prev`: the
  address of the last `next` field, which is the head's own when the queue is empty.
 */
module SinglyTailQueue {
  import opened Links

  ghost predicate IsQueue(all: seq<Link>)
    reads all
  {
    && Chained(all)
    && Distinct(all)
    && all[0].prev == all[|all| - 1]
  }

  /** STAILQ_INIT */
  method Init(head: Link)
    modifies head
    ensures IsQueue([head])
  {
    head.next := null;
    head.prev := head;
  }

  /** STAILQ_LAST */
  method Last(head: Link, ghost all: seq<Link>) returns (last: Link?)
    requires IsQueue(all) && all[0] == head
    ensures last == if |all| == 1 then null else all[|all| - 1]
  {
    last := if head.next == null then null else head.prev;
  }

  /** STAILQ_INSERT_HEAD */
  method InsertHead(head: Link, elm: Link, ghost all: seq<Link>)
    requires IsQueue(all) && all[0] == head && elm !in all
    modifies head, elm
    ensures IsQueue(InsertAt(all, 1, elm))
  {
    elm.next := head.next;
    if elm.next == null {
      head.prev := elm;
    }
    head.next := elm;
  }

  /** STAILQ_INSERT_TAIL */
  method InsertTail(head: Link, elm: Link, ghost all: seq<Link>)
    requires IsQueue(all) && all[0] == head && elm !in all
    modifies all, elm
    ensures IsQueue(InsertAt(all, |all|, elm))
  {
    elm.next := null;
    head.prev.next := elm;
    head.prev := elm;
  }

  /** STAILQ_INSERT_AFTER */
  method InsertAfter(head: Link, tqelm: Link, elm: Link, ghost all: seq<Link>, ghost k: nat)
    requires IsQueue(all) && all[0] == head && elm !in all
    requires 0 < k < |all| && all[k] == tqelm
    modifies head, tqelm, elm
    ensures IsQueue(InsertAt(all, k + 1, elm))
  {
    elm.next := tqelm.next;
    if elm.next == null {
      head.prev := elm;
    }
    tqelm.next := elm;
  }

  /** STAILQ_REMOVE_HEAD */
  method RemoveHead(head: Link, ghost all: seq<Link>)
    requires IsQueue(all) && all[0] == head && |all| > 1
    modifies head
    ensures IsQueue(RemoveAt(all, 1))
  {
    head.next := head.next.next;
    if head.next == null {
      head.prev := head;
    }
  }

  /** STAILQ_REMOVE_AFTER */
  method RemoveAfter(head: Link, elm: Link, ghost all: seq<Link>, ghost k: nat)
    requires IsQueue(all) && all[0] == head
    requires 0 < k < |all| - 1 && all[k] == elm
    modifies head, elm
    ensures IsQueue(RemoveAt(all, k + 1))
  {
    elm.next := elm.next.next;
    if elm.next == null {
      head.prev := elm;
    }
  }

  /** STAILQ_REMOVE: walks to the predecessor. */
  method Remove(head: Link, elm: Link, ghost all: seq<Link>, ghost k: nat)
    requires IsQueue(all) && all[0] == head
    requires 0 < k < |all| && all[k] == elm
    modifies all
    ensures IsQueue(RemoveAt(all, k))
  {
    if head.next == elm {
      assert k == 1;
      RemoveHead(head, all);
    } else {
      var curelm := head.next;
      ghost var j := 1;
      while curelm.next != elm
        invariant 1 <= j < k && curelm == all[j]
        decreases k - j
      {
        curelm := curelm.next;
        j := j + 1;
      }
      assert j == k - 1;
      RemoveAfter(head, curelm, all, j);
    }
  }

  /** STAILQ_CONCAT */
  method Concat(head1: Link, head2: Link, ghost all1: seq<Link>, ghost all2: seq<Link>)
    requires IsQueue(all1) && all1[0] == head1 && IsQueue(all2) && all2[0] == head2
    requires Disjoint(all1, all2)
    modifies all1, head2
    ensures IsQueue(all1 + all2[1..]) && IsQueue([head2])
  {
    if head2.next != null {
      head1.prev.next := head2.next;
      head1.prev := head2.prev;
      Init(head2);
    }
  }

  /** STAILQ_SWAP: a head that ends up empty must point at itself again. */
  method Swap(head1: Link, head2: Link, ghost all1: seq<Link>, ghost all2: seq<Link>)
    requires IsQueue(all1) && all1[0] == head1 && IsQueue(all2) && all2[0] == head2
    requires Disjoint(all1, all2)
    modifies head1, head2
    ensures IsQueue([head1] + all2[1..]) && IsQueue([head2] + all1[1..])
  {
    var swapFirst, swapLast := head1.next, head1.prev;
    head1.next := head2.next;
    head1.prev := head2.prev;
    head2.next := swapFirst;
    head2.prev := swapLast;
    if head1.next == null {
      head1.prev := head1;
    }
    if head2.next == null {
      head2.prev := head2;
    }
  }
}
