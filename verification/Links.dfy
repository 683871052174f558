/** The link fields that the macros of queue.h put into a head or an element. */
module Links {

  /**
    A pair of link fields.  An element's `prev` is the address of the `next` field of its
    predecessor, so it names the predecessor's pair: `*prev` in C is `prev.next` here.  A
    tail-queue head has the same layout (first element, address of the last `next` field);
    the macros rely on that, and here the head is a pair of the same class.
   */
  class Link {
    var next: Link?
    var prev: Link?

    constructor ()
      ensures next == null && prev == null
    {
      next, prev := null, null;
    }
  }

  ghost predicate Distinct(s: seq<Link>) {
    forall i, j :: 0 <= i < j < |s| ==> s[i] != s[j]
  }

  /** From the first link on, the `next` fields lead through the sequence and then end. */
  ghost predicate Chained(all: seq<Link>)
    reads all
  {
    && all != []
    && (forall i {:trigger all[i].next} :: 0 <= i < |all| - 1 ==> all[i].next == all[i + 1])
    && all[|all| - 1].next == null
  }

  /** The links determine the sequence: from one first link only one can be read. */
  lemma ChainIsDetermined(a: seq<Link>, b: seq<Link>)
    requires Chained(a) && Chained(b) && a[0] == b[0]
    ensures a == b
  {
    SamePrefix(a, b, if |a| < |b| then |a| - 1 else |b| - 1);
  }

  lemma {:induction false} SamePrefix(a: seq<Link>, b: seq<Link>, k: nat)
    requires Chained(a) && Chained(b) && a[0] == b[0]
    requires k < |a| && k < |b|
    ensures a[..k + 1] == b[..k + 1]
  {
    if k > 0 {
      SamePrefix(a, b, k - 1);
      assert a[k - 1] == a[..k][k - 1] == b[..k][k - 1] == b[k - 1];
      assert a[k - 1].next == a[k] && b[k - 1].next == b[k];
    }
  }

  /** A chain that ends has no cycle. */
  lemma ChainIsAcyclic(all: seq<Link>)
    requires Chained(all)
    ensures Distinct(all)
  {
    forall i, j | 0 <= i < j < |all|
      ensures all[i] != all[j]
    {
      if all[i] == all[j] {
        ChainSuffix(all, i);
        ChainSuffix(all, j);
        ChainIsDetermined(all[i..], all[j..]);
      }
    }
  }

  lemma ChainSuffix(all: seq<Link>, k: nat)
    requires Chained(all) && k < |all|
    ensures Chained(all[k..])
  {
    forall i | 0 <= i < |all[k..]| - 1
      ensures all[k..][i].next == all[k..][i + 1]
    {
      assert all[k..][i] == all[k + i];
      assert all[k + i].next == all[k + i + 1];
    }
    assert all[k..][|all| - k - 1] == all[|all| - 1];
  }

  ghost predicate Disjoint(a: seq<Link>, b: seq<Link>) {
    forall i, j :: 0 <= i < |a| && 0 <= j < |b| ==> a[i] != b[j]
  }

  function InsertAt<T>(s: seq<T>, k: nat, x: T): seq<T>
    requires k <= |s|
  {
    s[..k] + [x] + s[k..]
  }

  function RemoveAt<T>(s: seq<T>, k: nat): seq<T>
    requires k < |s|
  {
    s[..k] + s[k + 1..]
  }

  function Reverse<T>(s: seq<T>): (r: seq<T>)
    ensures |r| == |s|
    ensures forall i :: 0 <= i < |s| ==> r[i] == s[|s| - 1 - i]
  {
    if s == [] then [] else Reverse(s[1..]) + [s[0]]
  }
}
