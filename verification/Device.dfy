/** The driver's calls (aesd-char-driver/main.c) on real buffers, proved against `DeviceSpec`. */
module Devices {
  import opened ByteStrings
  import opened MachineInts
  import opened Addressing
  import opened CircularBuffers
  import opened Environments
  import opened KernelHeap
  import opened DeviceSpec

  const EFAULT := 14
  const ENOMEM := 12
  const EINVAL := 22
  const ENOTTY := 25

  /** The kernel never passes a longer count to a driver. */
  const MAX_RW_COUNT := 0x7FFF_F000

  /** _IOWR(0x16, 1, struct aesd_seekto): direction, argument size, magic, number. */
  const AESDCHAR_IOCSEEKTO: uint32 := 3 * 0x4000_0000 + 8 * 0x1_0000 + 0x16 * 0x100 + 1

  /** The numbers of the kernel's interface: its errors, the length of a write, and the one command. */
  lemma Interface()
    ensures ENOMEM == 12 && EFAULT == 14 && EINVAL == 22 && ENOTTY == 25
    ensures MAX_RW_COUNT == 0x7FFF_F000 && AESDCHAR_IOCSEEKTO == 0xC008_1601
  {
  }

  /** An open file: only its position matters. */
  class File {
    var fPos: size_t

    constructor ()
      ensures fPos == 0
    {
      fPos := 0;
    }
  }

  /**
    The allocated blocks are exactly the buffers of the held entries, one block each, and
    they contain these texts.
   */
  ghost predicate Owns(held: seq<Entry>, texts: seq<Bytes>, blocks: map<Pointer, Bytes>) {
    && |held| == |texts|
    && (forall i :: 0 <= i < |held| ==> Backed(held[i], texts[i], blocks))
    && (forall i, j :: 0 <= i < j < |held| ==> held[i].buffptr != held[j].buffptr)
    && (forall p :: p in blocks ==> IsHeld(held, p))
  }

  ghost predicate Backed(e: Entry, text: Bytes, blocks: map<Pointer, Bytes>) {
    e.buffptr != NULL && e.buffptr in blocks && blocks[e.buffptr] == text && |text| == e.size
  }

  ghost predicate IsHeld(held: seq<Entry>, p: Pointer) {
    exists i :: 0 <= i < |held| && held[i].buffptr == p
  }

  lemma OwnsAppend(held: seq<Entry>, texts: seq<Bytes>, blocks: map<Pointer, Bytes>, e: Entry, text: Bytes)
    requires Owns(held, texts, blocks)
    requires e.buffptr != NULL && e.buffptr !in blocks && e.size == |text|
    ensures Owns(held + [e], texts + [text], blocks[e.buffptr := text])
  {
    assert (held + [e])[|held|] == e;
    forall p | p in blocks
      ensures IsHeld(held + [e], p)
    {
      assert IsHeld(held, p);
      var i :| 0 <= i < |held| && held[i].buffptr == p;
      assert (held + [e])[i].buffptr == p;
    }
    forall i | 0 <= i < |held|
      ensures Backed(held[i], texts[i], blocks[e.buffptr := text])
    {
      assert Backed(held[i], texts[i], blocks);
    }
  }

  lemma OwnsDropFirst(held: seq<Entry>, texts: seq<Bytes>, blocks: map<Pointer, Bytes>)
    requires Owns(held, texts, blocks) && held != []
    ensures held[0].buffptr in blocks
    ensures Owns(held[1..], texts[1..], blocks - {held[0].buffptr})
  {
    assert Backed(held[0], texts[0], blocks);
    var blocks' := blocks - {held[0].buffptr};
    forall i | 0 <= i < |held[1..]|
      ensures Backed(held[1..][i], texts[1..][i], blocks')
    {
      assert Backed(held[i + 1], texts[i + 1], blocks);
    }
    forall p | p in blocks'
      ensures IsHeld(held[1..], p)
    {
      assert IsHeld(held, p);
      var j :| 0 <= j < |held| && held[j].buffptr == p;
      assert held[1..][j - 1].buffptr == p;
    }
  }

  lemma OwnsDropLast(held: seq<Entry>, texts: seq<Bytes>, e: Entry, text: Bytes, blocks: map<Pointer, Bytes>)
    requires |held| == |texts| && Owns(held + [e], texts + [text], blocks)
    ensures Backed(e, text, blocks)
    ensures Owns(held, texts, blocks - {e.buffptr})
  {
    var all, allTexts := held + [e], texts + [text];
    assert Backed(all[|held|], allTexts[|held|], blocks);
    var blocks' := blocks - {e.buffptr};
    forall i | 0 <= i < |held|
      ensures Backed(held[i], texts[i], blocks')
    {
      assert Backed(all[i], allTexts[i], blocks) && all[i].buffptr != all[|held|].buffptr;
    }
    forall p | p in blocks'
      ensures IsHeld(held, p)
    {
      assert IsHeld(all, p);
      var j :| 0 <= j < |all| && all[j].buffptr == p;
      assert held[j].buffptr == p;
    }
    forall i, j | 0 <= i < j < |held|
      ensures held[i].buffptr != held[j].buffptr
    {
      assert all[i].buffptr != all[j].buffptr;
    }
  }

  /** The entries of the ring, and a staging entry that holds something. */
  function WithStaging<T>(q: seq<T>, staged: bool, x: T): seq<T> {
    if staged then q + [x] else q
  }

  /** A longer staging block takes the place of the old one, if there was one. */
  lemma OwnsRestage(q: seq<Entry>, lines: seq<Bytes>, staging: Entry, staged: Bytes,
                    blocks: map<Pointer, Bytes>, e: Entry, text: Bytes)
    requires |q| == |lines|
    requires var some := staging.buffptr != NULL;
             Owns(WithStaging(q, some, staging), WithStaging(lines, some, staged), blocks)
    requires e.buffptr != NULL && e.buffptr !in blocks && e.size == |text|
    requires NULL !in blocks
    ensures staging.buffptr != NULL ==> Backed(staging, staged, blocks) && staging.buffptr in blocks
    ensures Owns(q + [e], lines + [text], blocks[e.buffptr := text] - {staging.buffptr})
  {
    hide Owns;
    var kept := blocks - {staging.buffptr};
    if staging.buffptr != NULL {
      OwnsDropLast(q, lines, staging, staged, blocks);
    } else {
      assert kept == blocks;
    }
    OwnsAppend(q, lines, kept, e, text);
    assert blocks[e.buffptr := text] - {staging.buffptr} == kept[e.buffptr := text];
  }

  /** The place in the queue of a slot of the ring. */
  function Rank(start: nat, slot: nat): nat
    requires start < CAPACITY && slot < CAPACITY
  {
    if start <= slot then slot - start else slot + CAPACITY - start
  }

  function Pointers(entries: seq<Entry>): set<Pointer> {
    set e | e in entries :: e.buffptr
  }

  lemma PointersSnoc(entries: seq<Entry>, k: nat)
    requires k < |entries|
    ensures Pointers(entries[..k + 1]) == Pointers(entries[..k]) + {entries[k].buffptr}
  {
    assert entries[..k + 1] == entries[..k] + [entries[k]];
  }

  lemma FreeOneMore(blocks: map<Pointer, Bytes>, before: set<Pointer>, freed: set<Pointer>, p: Pointer)
    ensures blocks - freed - {p} == blocks - (freed + {p})
    ensures before + (freed - {NULL}) + (if p == NULL then {} else {p}) == before + (freed + {p} - {NULL})
  {
  }

  /** The slots of a ring hold the pointers of its queue, each once. */
  lemma SlotsHoldQueue(slots: seq<Entry>, start: nat, n: nat)
    requires |slots| == CAPACITY && start < CAPACITY && n <= CAPACITY && DeadSlotsZeroed(slots, start, n)
    requires var q := Live(slots, start, n); forall j, k :: 0 <= j < k < n ==> q[j].buffptr != q[k].buffptr
    requires NULL !in Pointers(Live(slots, start, n))
    ensures Pointers(slots) - {NULL} == Pointers(Live(slots, start, n))
    ensures forall s :: 0 <= s < CAPACITY ==> slots[s].buffptr == NULL || slots[s].buffptr !in Pointers(slots[..s])
  {
    var q := Live(slots, start, n);
    forall s | 0 <= s < CAPACITY
      ensures slots[s] == if Rank(start, s) < n then q[Rank(start, s)] else NO_ENTRY
    {
      assert Slot(start, Rank(start, s)) == s;
    }
    forall k | 0 <= k < n
      ensures q[k] in slots
    {
      assert slots[Slot(start, k)] == q[k];
    }
    forall s, t | 0 <= t < s < CAPACITY && slots[s].buffptr == slots[t].buffptr
      ensures slots[s].buffptr == NULL
    {
      assert Rank(start, s) != Rank(start, t);
    }
  }

  lemma MinusNull(blocks: map<Pointer, Bytes>, pointers: set<Pointer>)
    requires NULL !in blocks
    ensures blocks - pointers == blocks - (pointers - {NULL})
  {
  }

  lemma PointerOfSlot(slots: seq<Entry>, s: nat)
    requires s < |slots|
    ensures slots[s].buffptr in Pointers(slots)
  {
    assert slots[s] in slots;
  }

  /** Besides the queue only a staging entry holds a block. */
  lemma QueuePointers(q: seq<Entry>, lines: seq<Bytes>, staging: Entry, staged: Bytes, blocks: map<Pointer, Bytes>)
    requires |q| == |lines|
    requires var some := staging.buffptr != NULL;
             Owns(WithStaging(q, some, staging), WithStaging(lines, some, staged), blocks)
    ensures NULL !in Pointers(q) && Pointers(q) <= blocks.Keys
    ensures forall j, k :: 0 <= j < k < |q| ==> q[j].buffptr != q[k].buffptr
    ensures blocks - Pointers(q) == if staging.buffptr == NULL then map[] else map[staging.buffptr := staged]
  {
    var some := staging.buffptr != NULL;
    var held, texts := WithStaging(q, some, staging), WithStaging(lines, some, staged);
    assert forall k :: 0 <= k < |q| ==> held[k] == q[k];
    forall k | 0 <= k < |q|
      ensures q[k].buffptr != NULL && q[k].buffptr in blocks && q[k].buffptr in Pointers(q)
    {
      assert q[k] in q;
      assert Backed(held[k], texts[k], blocks);
    }
    if some {
      assert Backed(held[|q|], texts[|q|], blocks);
      assert forall k :: 0 <= k < |q| ==> held[k].buffptr != held[|q|].buffptr;
    }
    forall p | p in blocks && p !in Pointers(q)
      ensures some && p == staging.buffptr
    {
      assert IsHeld(held, p);
      var i :| 0 <= i < |held| && held[i].buffptr == p;
    }
  }

  /** No entry of a run of at most ten is too large, so their sizes add up to an `int`. */
  predicate Bounded(held: seq<Entry>, limit: nat) {
    forall i :: 0 <= i < |held| ==> held[i].size <= limit
  }

  lemma BoundedPush(q: seq<Entry>, e: Entry, limit: nat)
    requires Bounded(q, limit) && e.size <= limit
    ensures Bounded(q + [e], limit) && Bounded(Push(q, e), limit)
  {
  }

  lemma BoundedTotal(held: seq<Entry>, limit: nat)
    requires Bounded(held, limit) && |held| <= CAPACITY
    ensures Total(EntrySizes(held)) <= CAPACITY * limit
  {
    TotalBound(EntrySizes(held), |held|, limit);
    MulMonotone(|held|, CAPACITY, limit);
  }

  lemma {:induction false} TotalBound(sizes: seq<nat>, k: nat, limit: nat)
    requires k <= |sizes|
    requires forall i :: 0 <= i < |sizes| ==> sizes[i] <= limit
    ensures PrefixSum(sizes, k) <= k * limit
  {
    if k > 0 {
      TotalBound(sizes, k - 1, limit);
      assert k * limit == (k - 1) * limit + limit;
    }
  }

  lemma MulMonotone(a: nat, b: nat, c: nat)
    requires a <= b
    ensures a * c <= b * c
  {
  }

  /** What a write comes to: it returns, or it first looks at a byte that is not its own. */
  datatype WriteOutcome = Returned(retval: int) | BeforeBuffer

  /** The index of the byte that decides whether a line is complete; -1 when nothing is staged. */
  function TestedIndex(stagedSize: nat): int {
    stagedSize - 1
  }

  lemma GatheredText(staged: Bytes, garbage: Bytes, n: nat)
    requires |staged| == n <= |garbage|
    ensures staged[..n] + garbage[n..] == staged + garbage[n..]
    ensures (staged + garbage[n..])[..n] == staged
  {
  }

  class Device {
    const ring: CircularBuffer
    const slab: Slab
    const env: Environment
    var staging: Entry

    /** What the buffers contain, and every payload accepted so far. */
    ghost var state: Dev
    ghost var writes: seq<Bytes>

    /** The live entries and, when something is staged, the staging entry. */
    ghost function Held(): seq<Entry>
      reads this, ring, ring.entry
      requires ring.Valid()
    {
      WithStaging(ring.Queue(), staging.buffptr != NULL, staging)
    }

    ghost function HeldTexts(): seq<Bytes>
      reads this
    {
      WithStaging(state.lines, staging.buffptr != NULL, state.staging)
    }

    ghost predicate Valid()
      reads this, ring, ring.entry, slab
    {
      && ring.Valid()
      && slab.Valid()
      && Owns(Held(), HeldTexts(), slab.blocks)
      && Bounded(Held(), slab.limit)
      && (staging.buffptr == NULL ==> staging.size == 0)
      && (staging.buffptr == NULL <==> state.staging == [])
      && state == AcceptAll(EMPTY, writes)
    }

    constructor (limit: size_t, env: Environment)
      requires 10 * limit <= 0x7FFF_FFFF
      ensures Valid() && state == EMPTY && writes == [] && slab.limit == limit && this.env == env
      ensures fresh(ring) && fresh(ring.entry) && fresh(slab) && slab.issued == {}
    {
      ring := new CircularBuffer();
      slab := new Slab(limit);
      this.env := env;
      staging := NO_ENTRY;
      state, writes := EMPTY, [];
    }

    /** The end of aesd_write: the staged line, which is complete, moves into the ring. */
    method Commit()
      requires ring.Valid() && slab.Valid()
      requires |ring.Queue()| == |state.lines|
      requires Owns(ring.Queue() + [staging], state.lines + [state.staging], slab.blocks)
      requires Bounded(ring.Queue(), slab.limit) && staging.size <= slab.limit
      modifies this, ring, ring.entry, slab
      ensures ring.Valid() && slab.Valid() && staging == NO_ENTRY
      ensures state == Dev(Push(old(state).lines, old(state).staging), []) && writes == old(writes)
      ensures Owns(ring.Queue(), state.lines, slab.blocks)
      ensures Bounded(ring.Queue(), slab.limit)
      ensures slab.issued == old(slab.issued)
    {
      hide Owns, Bounded;
      ghost var q, e := ring.Queue(), staging;
      ghost var held, texts := q + [e], state.lines + [state.staging];
      BoundedTotal(q, slab.limit);
      BoundedPush(q, e, slab.limit);
      if |q| == CAPACITY {
        OwnsDropFirst(held, texts, slab.blocks);
        assert held[0] == q[0] && held[1..] == Push(q, e) && texts[1..] == Push(state.lines, state.staging);
      } else {
        assert slab.blocks - {NULL} == slab.blocks;
      }
      var bufferptr := ring.AddEntry(staging);
      slab.Kfree(bufferptr);
      staging := NO_ENTRY;
      state := Dev(Push(state.lines, state.staging), []);
    }

    /** A block for `n` more bytes cannot be had, or they cannot be copied. */
    ghost predicate WriteFails(n: nat)
      reads this, slab, env
    {
      NoMemory(n) || CannotCopy(n)
    }

    /** A block can hold what is staged and `n` more bytes. */
    ghost predicate HasRoom(n: nat)
      reads this, slab
    {
      |state.staging| + n <= slab.limit
    }

    ghost predicate NoMemory(n: nat)
      reads this, slab, env
    {
      !HasRoom(n) || env.Fails()
    }

    ghost predicate CannotCopy(n: nat)
      reads this, slab, env
    {
      n > 0 && |env.script| > 1 && env.script[1]
    }

    /** Fill a new block with the staged bytes and then the new ones. */
    method Fill(bufferptr: Pointer, buf: Bytes) returns (left: nat, ghost text: Bytes)
      requires slab.Valid() && bufferptr in slab.blocks
      requires |slab.blocks[bufferptr]| == staging.size + |buf|
      requires staging.size > 0 ==> bufferptr != staging.buffptr && Backed(staging, state.staging, slab.blocks)
      requires staging.size == |state.staging|
      modifies slab`blocks, env
      ensures slab.Valid()
      ensures left > 0 <==> buf != [] && old(env.Fails())
      ensures Used(old(env.script), env.script) && (left > 0 ==> !Quiet(old(env.script), env.script))
      ensures slab.blocks == old(slab.blocks)[bufferptr := text]
      ensures left == 0 ==> text == state.staging + buf
    {
      ghost var blocks := slab.blocks;
      slab.Memcpy(bufferptr, staging.buffptr, staging.size);
      GatheredText(if staging.size > 0 then state.staging else [], blocks[bufferptr], staging.size);
      assert slab.blocks[bufferptr][..staging.size] == state.staging;
      left, text := slab.CopyFromUser(bufferptr, staging.size, buf, env);
      text := state.staging + text;
    }

    /** The start of aesd_write: a block with the staged bytes and the new ones, or an error. */
    method Gather(buf: Bytes) returns (bufferptr: Pointer, retval: int)
      requires slab.Valid() && |buf| <= MAX_RW_COUNT && staging.size <= slab.limit
      requires staging.size > 0 ==> Backed(staging, state.staging, slab.blocks)
      requires staging.size == |state.staging|
      modifies slab, env
      ensures slab.Valid() && Used(old(env.script), env.script)
      ensures bufferptr == NULL <==> old(WriteFails(|buf|))
      ensures bufferptr == NULL ==> !Quiet(old(env.script), env.script) || !HasRoom(|buf|)
      ensures bufferptr == NULL ==> retval == if old(NoMemory(|buf|)) then -ENOMEM else -EFAULT
      ensures bufferptr == NULL ==> slab.blocks == old(slab.blocks)
      ensures bufferptr != NULL ==>
                && bufferptr !in old(slab.blocks)
                && retval == |buf|
                && staging.size + |buf| <= slab.limit
                && slab.blocks == old(slab.blocks)[bufferptr := state.staging + buf]
    {
      ghost var blocks, script := slab.blocks, env.script;
      retval := -ENOMEM;
      ghost var text;
      bufferptr, text := slab.Kmalloc(SizeAdd(|buf|, staging.size), env);
      if bufferptr != NULL {
        assert env.Fails() <==> |script| > 1 && script[1];
        var left;
        ghost var middle := env.script;
        left, text := Fill(bufferptr, buf);
        UsedTwice(script, middle, env.script);
        if left > 0 {
          slab.Kfree(bufferptr);
          assert slab.blocks == blocks;
          bufferptr := NULL;
          retval := -EFAULT;
        } else {
          retval := |buf|;
        }
      }
    }

    /**
      aesd_write.  Nothing is promised after the one outcome in which the code looks at the
      byte before its buffer: a write of no bytes, with nothing staged, that gets its block.
     */
    method Write(buf: Bytes) returns (outcome: WriteOutcome)
      requires Valid()
      requires |buf| <= MAX_RW_COUNT
      modifies this, ring, ring.entry, slab, env
      ensures outcome == BeforeBuffer <==> buf == [] && old(state.staging) == [] && !old(WriteFails(0))
      ensures outcome.Returned? ==>
                && Valid() && Used(old(env.script), env.script)
                && outcome.retval == (if old(NoMemory(|buf|)) then -ENOMEM
                                      else if old(CannotCopy(|buf|)) then -EFAULT
                                      else |buf|)
                && (outcome.retval >= 0 ==> writes == old(writes) + [buf] && state == Accept(old(state), buf))
                && (outcome.retval < 0 ==>
                     && writes == old(writes) && state == old(state) && slab.blocks == old(slab.blocks)
                     && (!Quiet(old(env.script), env.script) || !old(HasRoom(|buf|))))
    {
      hide Owns, Bounded, AcceptAll, NoMemory, CannotCopy, Backed;
      ghost var blocks := slab.blocks;
      StagedIsHeld();
      var bufferptr, retval := Gather(buf);
      if bufferptr != NULL {
        assert slab.blocks - {bufferptr} == blocks;
        if TestedIndex(SizeAdd(staging.size, |buf|)) < 0 {
          return BeforeBuffer;
        }
        Store(bufferptr, buf);
      }
      outcome := Returned(retval);
    }

    /** The rest of aesd_write: the filled block becomes the staging entry, and a complete line is committed. */
    method Store(bufferptr: Pointer, buf: Bytes)
      requires ring.Valid() && slab.Valid() && |ring.Queue()| == |state.lines|
      requires bufferptr in slab.blocks && slab.blocks[bufferptr] == state.staging + buf != []
      requires Owns(Held(), HeldTexts(), slab.blocks - {bufferptr}) && Bounded(ring.Queue(), slab.limit)
      requires staging.size == |state.staging| && |state.staging + buf| <= slab.limit
      requires state == AcceptAll(EMPTY, writes)
      modifies this, ring, ring.entry, slab
      ensures Valid()
      ensures writes == old(writes) + [buf] && state == Accept(old(state), buf)
    {
      hide Owns, Bounded, AcceptAll, Backed;
      ghost var q, last, staged := ring.Queue(), staging, state.staging + buf;
      ghost var kept := slab.blocks - {bufferptr};
      AcceptAllSnoc(EMPTY, writes, buf);
      OwnsRestage(q, state.lines, last, state.staging, kept, Entry(bufferptr, |staged|), staged);
      assert kept[bufferptr := staged] == slab.blocks;
      slab.Kfree(staging.buffptr);
      staging := Entry(bufferptr, SizeAdd(staging.size, |buf|));
      BoundedPush(q, staging, slab.limit);
      state := state.(staging := staged);
      writes := writes + [buf];
      if slab.blocks[staging.buffptr][TestedIndex(staging.size)] == NEWLINE {
        Commit();
      }
    }

    /** The block of the entry that the search finds holds what a read returns. */
    lemma FoundIsRead(pos: size_t, count: size_t)
      requires Valid()
      ensures ring.Valid()
      ensures var found, data := ring.Finds(pos), ReadAt(state.lines, pos, count);
              if found == None then data == []
              else
                && found.value.slot < ring.entry.Length && found.value.offset < SIZE_MODULUS && pos + |data| <= INT_MAX
                && IsRead(data, ring.entry[found.value.slot], found.value.offset, count)
    {
      hide Device.Valid, Flatten, DeadSlotsZeroed, Slab.Valid;
      QueueShowsLines();
      LocatedIffBelowTotal(Sizes(state.lines), pos);
      TotalIsLength(state.lines);
      ReadIsSlice(state.lines, pos, count);
    }

    /** At most `count` bytes from `offset` on are this, in the block of an entry. */
    ghost predicate IsRead(data: Bytes, entry: Entry, offset: nat, count: size_t)
      reads slab
    {
      && entry.buffptr in slab.blocks && offset < entry.size == |slab.blocks[entry.buffptr]|
      && data == slab.blocks[entry.buffptr][offset..offset + Min(count, entry.size - offset)]
    }

    /** aesd_read */
    method Read(file: File, count: size_t) returns (retval: int, data: Bytes)
      requires Valid()
      modifies file, env
      ensures Valid() && Used(old(env.script), env.script)
      ensures retval == -EFAULT || retval == |data|
      ensures retval == -EFAULT ==> !Quiet(old(env.script), env.script)
      ensures retval == -EFAULT ==> old(env.Fails()) && ReadAt(state.lines, old(file.fPos), count) != []
      ensures retval != -EFAULT ==>
                (old(env.Fails()) ==> ReadAt(state.lines, old(file.fPos), count) == [])
      ensures retval == -EFAULT ==> data == [] && file.fPos == old(file.fPos)
      ensures retval != -EFAULT ==>
                data == ReadAt(state.lines, old(file.fPos), count) && file.fPos == old(file.fPos) + |data|
      ensures retval != -EFAULT ==> IsReadOf(state.lines, old(file.fPos), count, data)
    {
      ReadStopsAtLineEnd(state.lines, file.fPos, count);
      hide IsReadOf, ReadAt, IsRead, Device.Valid, CircularBuffer.Valid, CircularBuffer.Finds;
      hide Used, Quiet, Environment.Fails;
      retval, data := 0, [];
      FoundIsRead(file.fPos, count);
      NotUsed(env.script);
      var found := ring.FindEntryOffsetForFpos(file.fPos);
      if found.Some? {
        retval, data := CopyOut(ring.entry[found.value.slot], found.value.offset, count,
                                ReadAt(state.lines, file.fPos, count));
      }
      if retval > 0 {
        file.fPos := file.fPos + retval;
      }
    }

    /** The copy to the caller of at most `count` bytes from `offset` on. */
    method CopyOut(entry: Entry, offset: size_t, count: size_t, ghost text: Bytes) returns (retval: int, data: Bytes)
      requires IsRead(text, entry, offset, count)
      modifies env
      ensures Used(old(env.script), env.script)
      ensures retval == -EFAULT <==> text != [] && old(env.Fails())
      ensures retval == -EFAULT ==> data == [] && !Quiet(old(env.script), env.script)
      ensures retval != -EFAULT ==> retval == |data| && data == text
    {
      hide Used, Quiet, Environment.Fails;
      var n := Min(count, SizeSub(entry.size, offset));
      var left := CopyToUser(n, env);
      if left > 0 {
        retval, data := -EFAULT, [];
      } else {
        retval := n;
        data := slab.blocks[entry.buffptr][offset..offset + n];
      }
    }

    /** aesd_adjust_file_offset */
    method AdjustFileOffset(file: File, writeCmd: uint32, writeCmdOffset: uint32) returns (retval: int)
      requires Valid()
      modifies file
      ensures match SeekTo(state.lines, writeCmd, writeCmdOffset)
              case None => retval == -EINVAL && file.fPos == old(file.fPos)
              case Some(pos) => retval == 0 && file.fPos == pos
    {
      hide Device.Valid, ToInt, PrefixSum, Flatten;
      retval := -EINVAL;
      QueueShowsLines();
      SeekContents(state.lines, writeCmd, writeCmdOffset);
      if SeekTo(state.lines, writeCmd, writeCmdOffset).Some? {
        ToIntExact(SeekTo(state.lines, writeCmd, writeCmdOffset).value);
      }
      var newFpos := ring.GetEntryFpos(writeCmd, writeCmdOffset);
      if newFpos >= 0 {
        file.fPos := newFpos;
        retval := 0;
      }
    }

    /** aesd_ioctl; the argument may turn out to be unreadable. */
    method Ioctl(file: File, cmd: uint32, writeCmd: uint32, writeCmdOffset: uint32) returns (retval: int)
      requires Valid()
      modifies file, env
      ensures Valid() && Used(old(env.script), env.script)
      ensures retval == -EFAULT ==> !Quiet(old(env.script), env.script)
      ensures retval < 0 ==> file.fPos == old(file.fPos)
      ensures cmd != AESDCHAR_IOCSEEKTO ==> retval == -ENOTTY
      ensures cmd == AESDCHAR_IOCSEEKTO ==>
                if old(env.Fails()) then retval == -EFAULT
                else match SeekTo(state.lines, writeCmd, writeCmdOffset)
                     case None => retval == -EINVAL
                     case Some(pos) => retval == 0 && file.fPos == pos
    {
      if cmd == AESDCHAR_IOCSEEKTO {
        var left := CopyArgument(8, env);
        if left != 0 {
          retval := -EFAULT;
        } else {
          retval := AdjustFileOffset(file, writeCmd, writeCmdOffset);
        }
      } else {
        retval := -ENOTTY;
      }
    }

    /**
      The buffer-freeing loop of aesd_cleanup_module: every live buffer is freed, once, and
      a staged one is left behind.
     */
    method Cleanup()
      requires Valid()
      modifies slab
      ensures slab.Valid() && slab.issued == old(slab.issued)
      ensures slab.blocks == if state.staging == [] then map[] else map[staging.buffptr := state.staging]
      ensures slab.freed == old(slab.freed) + Pointers(ring.Queue())
    {
      hide Device.Valid;
      QueueShowsLines();
      SlotsOwnBlocks();
      ghost var slots, blocks := ring.entry[..], slab.blocks;
      assert ring.entry.Length == CAPACITY && slots[..0] == [];
      assert Pointers(slots[..0]) == {} && blocks - {} == blocks;
      hide CircularBuffer.Valid, Live, Pointers;
      var index := 0;
      while index < CAPACITY
        invariant index <= CAPACITY
        invariant slab.Valid() && slab.issued == old(slab.issued)
        invariant slab.blocks == blocks - Pointers(slots[..index])
        invariant slab.freed == old(slab.freed) + (Pointers(slots[..index]) - {NULL})
      {
        FreeSlot(index, slots, blocks, old(slab.freed));
        index := index + 1;
      }
      assert slots[..CAPACITY] == slots;
    }

    /** The body of the loop: one more slot's buffer is freed. */
    method FreeSlot(index: nat, ghost slots: seq<Entry>, ghost blocks: map<Pointer, Bytes>, ghost freed: set<Pointer>)
      requires slab.Valid() && index < ring.entry.Length && slots == ring.entry[..]
      requires slots[index].buffptr == NULL
               || (slots[index].buffptr in blocks && slots[index].buffptr !in Pointers(slots[..index]))
      requires slab.blocks == blocks - Pointers(slots[..index])
      requires slab.freed == freed + (Pointers(slots[..index]) - {NULL})
      modifies slab
      ensures slab.Valid() && slab.issued == old(slab.issued)
      ensures slab.blocks == blocks - Pointers(slots[..index + 1])
      ensures slab.freed == freed + (Pointers(slots[..index + 1]) - {NULL})
    {
      PointersSnoc(slots, index);
      hide Pointers;
      FreeOneMore(blocks, freed, Pointers(slots[..index]), slots[index].buffptr);
      slab.Kfree(ring.entry[index].buffptr);
    }

    /**
      Each slot holds nothing or an allocated block, no two slots the same block; the slots
      hold what the queue holds; and what they do not hold is the staging block.
     */
    lemma SlotsOwnBlocks()
      requires Valid()
      ensures var slots := ring.entry[..];
              && (forall s :: 0 <= s < 10 ==>
                   || slots[s].buffptr == NULL
                   || (slots[s].buffptr in slab.blocks && slots[s].buffptr !in Pointers(slots[..s])))
              && Pointers(slots) - {NULL} == Pointers(ring.Queue())
              && slab.blocks - Pointers(slots) ==
                 if state.staging == [] then map[] else map[staging.buffptr := state.staging]
    {
      hide Owns, Bounded, Pointers, Live, DeadSlotsZeroed, WithStaging;
      var slots, q := ring.entry[..], ring.Queue();
      StagedIsHeld();
      QueuePointers(q, state.lines, staging, state.staging, slab.blocks);
      SlotsHoldQueue(slots, ring.outOffs, |q|);
      MinusNull(slab.blocks, Pointers(slots));
      hide CircularBuffer.Valid, AcceptAll;
      forall s | 0 <= s < 10 && slots[s].buffptr != NULL
        ensures slots[s].buffptr in slab.blocks
      {
        PointerOfSlot(slots, s);
      }
    }

    /** What Valid says about the ring, in terms of the lines. */
    lemma QueueShowsLines()
      requires Valid()
      ensures ring.Valid() && slab.Valid() && |ring.Queue()| == |state.lines| <= 10
      ensures EntrySizes(ring.Queue()) == Sizes(state.lines)
      ensures ring.size == |Flatten(state.lines)| <= INT_MAX
      ensures forall k :: 0 <= k < |state.lines| ==> Backed(ring.Queue()[k], state.lines[k], slab.blocks)
    {
      StagedIsHeld();
      var q := ring.Queue();
      forall k | 0 <= k < |q|
        ensures Backed(q[k], state.lines[k], slab.blocks)
      {
        assert Held()[k] == q[k] && HeldTexts()[k] == state.lines[k];
        assert Backed(Held()[k], HeldTexts()[k], slab.blocks);
      }
      assert EntrySizes(q) == Sizes(state.lines);
      TotalIsLength(state.lines);
      BoundedTotal(q, slab.limit);
    }

    /**
      Nothing that was accepted is lost: what was evicted, the live lines and the staged bytes
      are together the accepted payloads, in order, and the live lines are the last ten.
     */
    lemma BytesAreConserved() returns (evicted: seq<Bytes>)
      requires Valid()
      ensures Flatten(evicted) + Flatten(state.lines) + state.staging == Flatten(writes)
      ensures state.lines == LastN(10, evicted + state.lines)
      ensures evicted + state.lines == Groups([], writes).lines && state.staging == Groups([], writes).rest
    {
      hide Owns, Bounded, Flatten, Groups, AcceptAll;
      Conservation(writes);
      var lines := Groups([], writes).lines;
      evicted := lines[..|lines| - |state.lines|];
      assert evicted + state.lines == lines;
    }

    /** Every buffer ever handed out is freed, or staged, or in one slot of the ring: just one of these. */
    lemma EachBufferHasOneOwner(p: Pointer)
      requires Valid() && p in slab.issued
      ensures p in slab.freed ==> p != staging.buffptr && forall s :: 0 <= s < 10 ==> ring.entry[s].buffptr != p
      ensures p !in slab.freed ==>
                (p == staging.buffptr <==> forall s :: 0 <= s < 10 ==> ring.entry[s].buffptr != p)
      ensures forall s, t :: 0 <= s < t < 10 && ring.entry[s].buffptr == p ==> ring.entry[t].buffptr != p
    {
      hide Owns, Bounded, Flatten, AcceptAll;
      var slots := ring.entry[..];
      SlotsOwnBlocks();
      StagedIsHeld();
      assert forall s :: 0 <= s < 10 ==> slots[s] in slots;
      forall s, t | 0 <= s < t < 10 && slots[s].buffptr == p
        ensures slots[t].buffptr != p
      {
        assert slots[..t][s] == slots[s];
      }
      assert p in Pointers(slots) <==> exists s :: 0 <= s < 10 && slots[s].buffptr == p;
      var loose := slab.blocks - Pointers(slots);
      assert p !in slab.freed ==> p in slab.blocks;
      assert p in loose <==> p in slab.blocks && p !in Pointers(slots);
      assert p in loose <==> p == staging.buffptr;
    }

    /** What is staged is never a complete line, and there are at most ten lines. */
    lemma StateInvariant()
      requires Valid()
      ensures !EndsInNewline(state.staging) && |state.lines| <= 10
    {
      hide Owns, Bounded, AcceptAll;
      Conservation(writes);
    }

    lemma StagedIsHeld()
      requires Valid()
      ensures Bounded(ring.Queue(), slab.limit) && |ring.Queue()| == |state.lines|
      ensures staging.buffptr != NULL ==> Backed(staging, state.staging, slab.blocks)
      ensures staging.size == |state.staging| && staging.size <= slab.limit
    {
      var q := ring.Queue();
      assert forall i :: 0 <= i < |q| ==> q[i] == Held()[i];
      if staging.buffptr != NULL {
        assert Held()[|q|] == staging && HeldTexts()[|q|] == state.staging;
        assert Backed(Held()[|q|], HeldTexts()[|q|], slab.blocks);
      }
    }
  }
}
