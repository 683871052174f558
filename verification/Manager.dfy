/**
  The connection manager's own list (connection_manager.c with the SLIST macros): contexts
  are registered at the front, and shutdown joins and frees every one of them.
 */
module Manager {
  import opened Environments
  import opened Links

  /** A context: the thread that serves the connection, and its place in the list. */
  class ConnectionCtx {
    var thread: nat
    var next: ConnectionCtx?

    constructor ()
    {
      thread, next := 0, null;
    }
  }

  /** The list from `node` on is exactly `list`. */
  ghost predicate Chain(node: ConnectionCtx?, list: seq<ConnectionCtx>)
    reads list
  {
    if list == [] then node == null
    else
      && node == list[0]
      && (forall i {:trigger list[i].next} :: 0 <= i < |list| - 1 ==> list[i].next == list[i + 1])
      && list[|list| - 1].next == null
  }

  /** A context that points at a list makes it one longer. */
  lemma ChainCons(ctx: ConnectionCtx, list: seq<ConnectionCtx>)
    requires Chain(ctx.next, list)
    ensures Chain(ctx, [ctx] + list)
  {
    var all := [ctx] + list;
    forall i {:trigger all[i].next} | 0 <= i < |all| - 1
      ensures all[i].next == all[i + 1]
    {
      if i > 0 {
        assert all[i] == list[i - 1] && list[i - 1].next == list[i];
      }
    }
  }

  lemma ChainStep(ctx: ConnectionCtx, list: seq<ConnectionCtx>)
    requires Chain(ctx, list)
    ensures list != [] && list[0] == ctx && Chain(ctx.next, list[1..])
  {
  }

  lemma ChainEnd(list: seq<ConnectionCtx>)
    requires Chain(null, list)
    ensures list == []
  {
  }

  /** What shutdown does to a context: wait for its thread, and then free it. */
  datatype Event = Joined(thread: nat) | Freed(ctx: ConnectionCtx)

  /** Each context of the list joined and then freed, one after the other. */
  ghost function Shutdown(list: seq<ConnectionCtx>): (events: seq<Event>)
    reads list
  {
    seq(2 * |list|, i requires 0 <= i < 2 * |list| reads list =>
      if i % 2 == 0 then Joined(list[i / 2].thread) else Freed(list[i / 2]))
  }

  ghost predicate AllEnd(list: seq<ConnectionCtx>, ends: set<nat>)
    reads list
  {
    forall i :: 0 <= i < |list| ==> list[i].thread in ends
  }

  lemma NothingYet(list: seq<ConnectionCtx>, ends: set<nat>)
    ensures Shutdown(list[..0]) == [] && list[0..] == list && AllEnd(list[..0], ends)
  {
  }

  lemma EndOneMore(list: seq<ConnectionCtx>, ends: set<nat>, n: nat)
    requires n < |list| && AllEnd(list[..n], ends)
    ensures AllEnd(list[..n + 1], ends) <==> list[n].thread in ends
    ensures AllEnd(list, ends) ==> list[n].thread in ends
    ensures n + 1 == |list| ==> list[..n + 1] == list
  {
    assert forall i :: 0 <= i < n ==> list[i] == list[..n][i];
    assert list[..n + 1][n] == list[n];
  }

  lemma ShutdownOneMore(list: seq<ConnectionCtx>, n: nat)
    requires n < |list|
    ensures Shutdown(list[..n + 1]) == Shutdown(list[..n]) + [Joined(list[n].thread), Freed(list[n])]
    ensures list[n..][0] == list[n] && list[n..][1..] == list[n + 1..]
  {
  }

  /** No two contexts are the same, and no two have the same thread. */
  ghost predicate Separate(list: seq<ConnectionCtx>)
    reads list
  {
    forall i, j :: 0 <= i < j < |list| ==> list[i] != list[j] && list[i].thread != list[j].thread
  }

  ghost predicate NoneTwice(events: seq<Event>) {
    forall i, j :: 0 <= i < j < |events| ==> events[i] != events[j]
  }

  /** No thread is joined twice, and no context is freed twice. */
  lemma ShutdownIsOnce(list: seq<ConnectionCtx>, n: nat)
    requires n <= |list| && Separate(list)
    ensures NoneTwice(Shutdown(list[..n]))
  {
    var events := Shutdown(list[..n]);
    forall i, j | 0 <= i < j < |events|
      ensures events[i] != events[j]
    {
      assert i / 2 < j / 2 || (i / 2 == j / 2 && i % 2 != j % 2);
    }
  }

  lemma NotYetFreed(list: seq<ConnectionCtx>, n: nat)
    requires n < |list| && Separate(list)
    ensures Freed(list[n]) !in Shutdown(list[..n])
  {
  }

  class ConnectionManager {
    var first: ConnectionCtx?
    var closeConnections: bool
    var threads: nat
    /** The contexts of successful registrations, in order, and those of failed ones. */
    ghost var registered: seq<ConnectionCtx>
    ghost var abandoned: seq<ConnectionCtx>
    /** What shutdown has done, in order. */
    ghost var events: seq<Event>

    /** The contexts in the list, newest first. */
    ghost function Listed(): seq<ConnectionCtx>
      reads this
    {
      Reverse(registered)
    }

    ghost predicate Valid()
      reads this, registered
    {
      && Chain(first, Listed())
      && (forall i, j :: 0 <= i < j < |registered| ==> registered[i] != registered[j])
      && (forall i :: 0 <= i < |registered| ==> registered[i].thread == i)
      && threads == |registered|
      && events == []
    }

    /** connection_manager_create */
    constructor ()
      ensures Valid() && registered == [] && abandoned == [] && !closeConnections
    {
      first, closeConnections, threads := null, false, 0;
      registered, abandoned, events := [], [], [];
    }

    /**
      connection_manager_register_connection: the new context goes to the front of the list,
      unless no thread could be created; then the context is never freed.
     */
    method RegisterConnection(env: Environment) returns (ok: bool)
      requires Valid()
      modifies this, env
      ensures Valid() && closeConnections == old(closeConnections)
      ensures ok == !old(env.Fails())
      ensures ok ==> |registered| == |old(registered)| + 1 && registered[..|old(registered)|] == old(registered)
      ensures ok ==> fresh(registered[|old(registered)|]) && first == registered[|old(registered)|]
      ensures ok ==> Listed() == [registered[|old(registered)|]] + old(Listed()) && abandoned == old(abandoned)
      ensures !ok ==> registered == old(registered) && |abandoned| == |old(abandoned)| + 1
    {
      hide Reverse, Chain;
      ghost var list, before := Listed(), registered;
      var ctx := new ConnectionCtx();
      var fails := env.Ask();
      ok := !fails;
      if ok {
        ctx.thread, threads := threads, threads + 1;
        ctx.next := first;
        first := ctx;
        registered := registered + [ctx];
        ReverseSnoc(before, ctx);
        ListIsOld(before, ctx);
        ChainCons(ctx, list);
      } else {
        abandoned := abandoned + [ctx];
      }
    }

    lemma ListedOnce()
      requires Valid()
      ensures Separate(Listed())
    {
    }

    /**
      connection_manager_destroy: joins and then frees the registered contexts, newest first.
      Waiting for a thread that does not end, because its client neither sends nor closes,
      never returns; its context is then the result.  So all are joined and freed, each once,
      if and only if every thread ends.
     */
    method Destroy(ends: set<nat>) returns (blocked: ConnectionCtx?, ghost done: nat)
      requires Valid()
      modifies this
      ensures closeConnections && registered == old(registered)
      ensures done <= |old(Listed())| && events == Shutdown(old(Listed())[..done])
      ensures NoneTwice(events)
      ensures AllEnd(old(Listed())[..done], ends)
      ensures first == blocked
      ensures blocked == null <==> AllEnd(old(Listed()), ends)
      ensures blocked == null ==> done == |old(Listed())|
      ensures blocked != null ==>
                done < |old(Listed())| && blocked == old(Listed())[done] && blocked.thread !in ends && !IsFreed(blocked)
    {
      ListedOnce();
      hide Reverse, Chain, Shutdown, Separate, NoneTwice, AllEnd;
      closeConnections := true;
      blocked, done := JoinAll(ends, Listed());
    }

    /** The loop, from a first context on. */
    method JoinAll(ends: set<nat>, ghost list: seq<ConnectionCtx>) returns (blocked: ConnectionCtx?, ghost done: nat)
      requires Chain(first, list) && Separate(list) && events == [] && closeConnections
      modifies this`first, this`events
      ensures done <= |list| && events == Shutdown(list[..done]) && NoneTwice(events)
      ensures AllEnd(list[..done], ends) && (blocked == null <==> AllEnd(list, ends))
      ensures first == blocked
      ensures blocked == null ==> done == |list|
      ensures blocked != null ==>
                done < |list| && blocked == list[done] && blocked.thread !in ends && !IsFreed(blocked)
    {
      NothingYet(list, ends);
      hide Chain, Shutdown, Separate, NoneTwice, AllEnd;
      blocked, done := null, 0;
      while first != null
        invariant done <= |list| && Chain(first, list[done..])
        invariant events == Shutdown(list[..done]) && AllEnd(list[..done], ends)
        decreases |list| - done
      {
        ChainStep(first, list[done..]);
        NotYetFreed(list, done);
        EndOneMore(list, ends, done);
        blocked := JoinFirst(ends, list[done..]);
        if blocked != null {
          ShutdownIsOnce(list, done);
          return;
        }
        ShutdownOneMore(list, done);
        done := done + 1;
      }
      blocked := null;
      ChainEnd(list[done..]);
      ShutdownIsOnce(list, done);
      assert list[..done] == list;
    }

    ghost predicate IsFreed(ctx: ConnectionCtx)
      reads this
    {
      Freed(ctx) in events
    }

    /** The body of the loop: wait for the first context's thread, unlink the context, free it. */
    method JoinFirst(ends: set<nat>, ghost list: seq<ConnectionCtx>) returns (blocked: ConnectionCtx?)
      requires first != null && Chain(first, list) && !IsFreed(first) && closeConnections
      modifies this`first, this`events
      ensures blocked == if old(first).thread in ends then null else old(first)
      ensures blocked != null ==> first == old(first) && events == old(events)
      ensures blocked == null ==> list != [] && list[0] == old(first) && Chain(first, list[1..])
      ensures blocked == null ==> events == old(events) + [Joined(list[0].thread), Freed(list[0])]
    {
      var ctx := first;
      ChainStep(ctx, list);
      hide Chain;
      var ended := Join(ctx, ends);
      if !ended {
        return ctx;
      }
      RemoveHead();
      Free(ctx);
      blocked := null;
      assert events == old(events) + [Joined(list[0].thread), Freed(list[0])];
    }

    /** pthread_join: it returns only if the thread ends, so the threads must have been told to stop. */
    method Join(ctx: ConnectionCtx, ends: set<nat>) returns (ended: bool)
      requires !IsFreed(ctx) && closeConnections
      modifies this`events
      ensures ended == (ctx.thread in ends)
      ensures events == if ended then old(events) + [Joined(ctx.thread)] else old(events)
    {
      ended := ctx.thread in ends;
      if ended {
        events := events + [Joined(ctx.thread)];
      }
    }

    /** SLIST_REMOVE_HEAD reads the first context, which must still be there. */
    method RemoveHead()
      requires first != null && !IsFreed(first)
      modifies this`first
      ensures first == old(first.next)
    {
      first := first.next;
    }

    /** A context is freed after its thread was joined, and only once. */
    method Free(ctx: ConnectionCtx)
      requires !IsFreed(ctx) && Joined(ctx.thread) in events
      modifies this`events
      ensures events == old(events) + [Freed(ctx)]
    {
      events := events + [Freed(ctx)];
    }
  }

  lemma ListIsOld(registered: seq<ConnectionCtx>, ctx: ConnectionCtx)
    requires ctx !in registered
    ensures ctx !in Reverse(registered)
  {
  }

  lemma ReverseSnoc<T>(s: seq<T>, x: T)
    ensures Reverse(s + [x]) == [x] + Reverse(s)
  {
    assert forall i :: 0 <= i <= |s| ==> Reverse(s + [x])[i] == ([x] + Reverse(s))[i];
  }
}
