/**
  Doubly linked lists without a tail pointer (the LIST macros of queue.h).  A list is
  described by its links, the head first; the head has no `prev` of its own.
 */
module LinkedLists {
  import opened Links

  ghost predicate IsList(all: seq<Link>)
    reads all
  {
    && Chained(all)
    && Distinct(all)
    && (forall i {:trigger all[i].prev} :: 0 < i < |all| ==> all[i].prev == all[i - 1])
  }

  /** LIST_INIT */
  method Init(head: Link)
    modifies head`next
    ensures IsList([head])
  {
    head.next := null;
  }

  /** LIST_PREV */
  method Prev(elm: Link, head: Link, ghost all: seq<Link>, ghost k: nat) returns (previous: Link?)
    requires IsList(all) && all[0] == head && 0 < k < |all| && all[k] == elm
    ensures previous == if k == 1 then null else all[k - 1]
  {
    previous := if elm.prev == head then null else elm.prev;
  }

  /** LIST_INSERT_HEAD */
  method InsertHead(head: Link, elm: Link, ghost all: seq<Link>)
    requires IsList(all) && all[0] == head && elm !in all
    modifies all, elm
    ensures IsList(InsertAt(all, 1, elm))
  {
    elm.next := head.next;
    if elm.next != null {
      head.next.prev := elm;
    }
    head.next := elm;
    elm.prev := head;
  }

  /** LIST_INSERT_AFTER */
  method InsertAfter(listelm: Link, elm: Link, ghost all: seq<Link>, ghost k: nat)
    requires IsList(all) && elm !in all && 0 < k < |all| && all[k] == listelm
    modifies all, elm
    ensures IsList(InsertAt(all, k + 1, elm))
  {
    elm.next := listelm.next;
    if elm.next != null {
      listelm.next.prev := elm;
    }
    listelm.next := elm;
    elm.prev := listelm;
  }

  /** LIST_INSERT_BEFORE, which never sees the head. */
  method InsertBefore(listelm: Link, elm: Link, ghost all: seq<Link>, ghost k: nat)
    requires IsList(all) && elm !in all && 0 < k < |all| && all[k] == listelm
    modifies all, elm
    ensures IsList(InsertAt(all, k, elm))
  {
    elm.prev := listelm.prev;
    elm.next := listelm;
    listelm.prev.next := elm;
    listelm.prev := elm;
  }

  /** LIST_REMOVE, which never sees the head. */
  method Remove(elm: Link, ghost all: seq<Link>, ghost k: nat)
    requires IsList(all) && 0 < k < |all| && all[k] == elm
    modifies all
    ensures IsList(RemoveAt(all, k))
    ensures elm.next == old(elm.next) && elm.prev == old(elm.prev)
  {
    if elm.next != null {
      elm.next.prev := elm.prev;
    }
    elm.prev.next := elm.next;
  }

  /** LIST_CONCAT: walks to the end of the first list and hangs the second one there. */
  method Concat(head1: Link, head2: Link, ghost all1: seq<Link>, ghost all2: seq<Link>)
    requires IsList(all1) && all1[0] == head1 && IsList(all2) && all2[0] == head2
    requires Disjoint(all1, all2)
    modifies all1, all2
    ensures IsList(all1 + all2[1..]) && IsList([head2])
  {
    var curelm := head1.next;
    if curelm == null {
      head1.next := head2.next;
      if head1.next != null {
        head2.next.prev := head1;
        Init(head2);
      }
    } else if head2.next != null {
      ghost var k := 1;
      while curelm.next != null
        invariant 1 <= k < |all1| && curelm == all1[k]
        decreases |all1| - k
      {
        curelm := curelm.next;
        k := k + 1;
      }
      curelm.next := head2.next;
      head2.next.prev := curelm;
      Init(head2);
    } else {
      assert all1 + all2[1..] == all1;
    }
  }

  /** LIST_SWAP */
  method Swap(head1: Link, head2: Link, ghost all1: seq<Link>, ghost all2: seq<Link>)
    requires IsList(all1) && all1[0] == head1 && IsList(all2) && all2[0] == head2
    requires Disjoint(all1, all2)
    modifies all1, all2
    ensures IsList([head1] + all2[1..]) && IsList([head2] + all1[1..])
  {
    var swapTmp := head1.next;
    head1.next := head2.next;
    head2.next := swapTmp;
    swapTmp := head1.next;
    if swapTmp != null {
      swapTmp.prev := head1;
    }
    swapTmp := head2.next;
    if swapTmp != null {
      swapTmp.prev := head2;
    }
  }
}
