/**
  The kernel heap as the driver sees it: the blocks that are allocated now, and the history
  of what was handed out and given back.  A block is named by a number that is never reused.
 */
module KernelHeap {
  import opened ByteStrings
  import opened MachineInts
  import opened CircularBuffers
  import opened Environments

  class Slab {
    /** No allocation is larger; ten of the largest still fit in an `int`. */
    const limit: size_t
    var blocks: map<Pointer, Bytes>
    var next: Pointer
    ghost var issued: set<Pointer>
    ghost var freed: set<Pointer>

    ghost predicate Valid()
      reads this
    {
      && CAPACITY * limit <= INT_MAX
      && NULL < next
      && (forall p :: p in issued ==> NULL < p < next)
      && blocks.Keys !! freed
      && blocks.Keys + freed == issued
    }

    constructor (limit: size_t)
      requires 10 * limit <= 0x7FFF_FFFF
      ensures Valid() && this.limit == limit
      ensures blocks == map[] && freed == {}
    {
      this.limit := limit;
      blocks, next, issued, freed := map[], NULL + 1, {}, {};
    }

    /** kmalloc: a new block of `n` bytes, or NULL, which every oversized request gets. */
    method Kmalloc(n: size_t, env: Environment) returns (p: Pointer, ghost garbage: Bytes)
      requires Valid()
      modifies this, env
      ensures p == NULL <==> n > limit || old(env.Fails())
      ensures env.script == if old(env.script) == [] then [] else old(env.script)[1..]
      ensures Used(old(env.script), env.script) && (Quiet(old(env.script), env.script) <==> !old(env.Fails()))
      ensures Valid() && freed == old(freed)
      ensures p == NULL ==> blocks == old(blocks)
      ensures p != NULL ==> p !in old(issued)
      ensures p != NULL ==> |garbage| == n <= limit && blocks == old(blocks)[p := garbage]
    {
      p, garbage := NULL, [];
      var fails := env.Ask();
      if n <= limit {
        if !fails {
          p, next := next, next + 1;
          garbage := seq(n, _ => 0);
          blocks := blocks[p := seq(n, _ => 0)];
          issued := issued + {p};
        }
      }
    }

    /** kfree: NULL is ignored; anything else must be allocated, so nothing is freed twice. */
    method Kfree(p: Pointer)
      requires Valid()
      requires p != NULL ==> p in blocks
      modifies this
      ensures Valid() && issued == old(issued)
      ensures blocks == old(blocks) - {p}
      ensures freed == if p == NULL then old(freed) else old(freed) + {p}
    {
      if p != NULL {
        blocks := blocks - {p};
        freed := freed + {p};
      }
    }

    /** memcpy of `n` bytes between the fronts of two blocks. */
    method Memcpy(dst: Pointer, src: Pointer, n: size_t)
      requires Valid()
      requires dst in blocks && n <= |blocks[dst]|
      requires n > 0 ==> src in blocks && n <= |blocks[src]|
      modifies this`blocks
      ensures Valid()
      ensures blocks == old(blocks)[dst := old((if n > 0 then blocks[src][..n] else []) + blocks[dst][n..])]
    {
      var copied := if n > 0 then blocks[src][..n] else [];
      blocks := blocks[dst := copied + blocks[dst][n..]];
    }

    /**
      copy_from_user into a block from byte `at` on: returns the number of bytes it could
      not copy, and in any case leaves the other blocks and the bytes before `at` alone.
     */
    method CopyFromUser(dst: Pointer, at: size_t, src: Bytes, env: Environment) returns (left: nat, ghost text: Bytes)
      requires Valid()
      requires dst in blocks && at + |src| == |blocks[dst]|
      modifies this`blocks, env
      ensures Valid()
      ensures left <= |src|
      ensures left > 0 <==> src != [] && old(env.Fails())
      ensures env.script == if old(env.script) == [] then [] else old(env.script)[1..]
      ensures Used(old(env.script), env.script) && (Quiet(old(env.script), env.script) <==> !old(env.Fails()))
      ensures |text| == |src| && (left == 0 ==> text == src)
      ensures blocks == old(blocks)[dst := old(blocks[dst][..at]) + text]
    {
      hide Used, Quiet;
      var fails := env.Ask();
      left := 0;
      if fails && src != [] {
        left :| 0 < left <= |src|;
      }
      var done := |src| - left;
      var filled := src[..done] + blocks[dst][at + done..];
      text := filled;
      assert left == 0 ==> text == src;
      blocks := blocks[dst := blocks[dst][..at] + filled];
    }
  }

  /** copy_to_user: the number of bytes it could not copy. */
  method CopyToUser(n: nat, env: Environment) returns (left: nat)
    modifies env
    ensures left <= n
    ensures left > 0 <==> n > 0 && old(env.Fails())
    ensures env.script == if old(env.script) == [] then [] else old(env.script)[1..]
    ensures Used(old(env.script), env.script) && (Quiet(old(env.script), env.script) <==> !old(env.Fails()))
  {
    var fails := env.Ask();
    left := 0;
    if fails && n > 0 {
      left :| 0 < left <= n;
    }
  }

  /** copy_from_user of a fixed-size argument: the number of bytes it could not copy. */
  method CopyArgument(size: nat, env: Environment) returns (left: nat)
    requires size > 0
    modifies env
    ensures left <= size
    ensures left > 0 <==> old(env.Fails())
    ensures env.script == if old(env.script) == [] then [] else old(env.script)[1..]
    ensures Used(old(env.script), env.script) && (Quiet(old(env.script), env.script) <==> !old(env.Fails()))
  {
    var fails := env.Ask();
    left := 0;
    if fails {
      left :| 0 < left <= size;
    }
  }
}
