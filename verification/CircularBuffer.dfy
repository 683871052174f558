/**
  The ring of the ten most recent entries (aesd-circular-buffer.c and its header).  The ring
  never looks inside a buffer: it keeps the pointer and the size of each entry.
 */
module CircularBuffers {
  import opened ByteStrings
  import opened MachineInts
  import opened Addressing

  const CAPACITY := 10

  /** An address of the kernel heap, by block. */
  type Pointer = nat

  const NULL: Pointer := 0

  datatype Entry = Entry(buffptr: Pointer, size: size_t)

  const NO_ENTRY := Entry(NULL, 0)

  /** The slot `k` places after slot `start`, going round the ring. */
  function Slot(start: nat, k: nat): (slot: nat)
    requires start < CAPACITY && k <= CAPACITY
    ensures slot < CAPACITY
  {
    if start + k < CAPACITY then start + k else start + k - CAPACITY
  }

  /** The ring's own arithmetic agrees. */
  lemma SlotIsModulo(start: nat, k: nat)
    requires start < CAPACITY && k <= CAPACITY
    ensures (start + k) % CAPACITY == Slot(start, k)
  {
  }

  /** Walking on from one of `n` live slots: only after the last does the walk meet the insertion slot. */
  lemma NextSlot(start: nat, k: nat, n: nat)
    requires start < CAPACITY && k < n <= CAPACITY
    ensures (Slot(start, k) + 1) % CAPACITY == Slot(start, k + 1)
    ensures (start + k) % CAPACITY == Slot(start, k)
    ensures Slot(start, k + 1) == Slot(start, n) <==> k + 1 == n
  {
    SlotIsModulo(Slot(start, k), 1);
    SlotIsModulo(start, k);
  }

  /** The slot of a located byte and the offset of the byte within that slot's buffer. */
  datatype Found = Found(slot: nat, offset: nat)

  function EntrySizes(q: seq<Entry>): (sizes: seq<nat>)
    ensures |sizes| == |q|
    ensures forall i :: 0 <= i < |q| ==> sizes[i] == q[i].size
  {
    seq(|q|, i requires 0 <= i < |q| => q[i].size)
  }

  /** The bounded queue that the ring implements: a full queue loses its oldest element. */
  function Push<T>(q: seq<T>, x: T): (r: seq<T>)
    ensures |q| <= CAPACITY ==> |r| <= CAPACITY
  {
    if |q| == CAPACITY then q[1..] + [x] else q + [x]
  }

  /** Pushing keeps the window of the last ten elements: up to ten nothing is lost, and then just the oldest. */
  lemma PushLastN<T>(history: seq<T>, x: T)
    ensures Push(LastN(10, history), x) == LastN(10, history + [x])
    ensures |history| < 10 ==> Push(history, x) == history + [x]
    ensures |history| == 10 ==> Push(history, x) == history[1..] + [x]
  {
  }

  lemma PushTotal(q: seq<Entry>, e: Entry)
    ensures Total(EntrySizes(Push(q, e))) ==
            Total(EntrySizes(q)) + e.size - if |q| == CAPACITY then q[0].size else 0
  {
    if |q| == CAPACITY {
      TotalSplit(EntrySizes(q), 1);
      assert EntrySizes(q)[1..] == EntrySizes(q[1..]);
      assert PrefixSum(EntrySizes(q), 1) == PrefixSum(EntrySizes(q), 0) + q[0].size;
      TotalSnoc(q[1..], e);
    } else {
      TotalSnoc(q, e);
    }
  }

  lemma TotalSnoc(q: seq<Entry>, e: Entry)
    ensures Total(EntrySizes(q + [e])) == Total(EntrySizes(q)) + e.size
  {
    PrefixSumAgree(EntrySizes(q), EntrySizes(q + [e]), |q|);
  }

  lemma {:induction false} PrefixSumAgree(a: seq<nat>, b: seq<nat>, k: nat)
    requires k <= |a| && k <= |b| && a[..k] == b[..k]
    ensures PrefixSum(a, k) == PrefixSum(b, k)
  {
    if k > 0 {
      assert a[k - 1] == a[..k][k - 1] == b[..k][k - 1] == b[k - 1];
      assert a[..k - 1] == a[..k][..k - 1] == b[..k][..k - 1] == b[..k - 1];
      PrefixSumAgree(a, b, k - 1);
    }
  }

  lemma {:induction false} PrefixSumSplit(sizes: seq<nat>, j: nat, k: nat)
    requires j <= k <= |sizes|
    ensures PrefixSum(sizes, k) == PrefixSum(sizes, j) + PrefixSum(sizes[j..], k - j)
  {
    if j < k {
      PrefixSumSplit(sizes, j, k - 1);
    }
  }

  lemma TotalSplit(sizes: seq<nat>, j: nat)
    requires j <= |sizes|
    ensures Total(sizes) == PrefixSum(sizes, j) + Total(sizes[j..])
  {
    PrefixSumSplit(sizes, j, |sizes|);
  }

  /** The `n` slots from `start` on, read off the slot array in ring order. */
  function Live(slots: seq<Entry>, start: nat, n: nat): (q: seq<Entry>)
    requires |slots| == CAPACITY && start < CAPACITY && n <= CAPACITY
    ensures |q| == n
    ensures forall k :: 0 <= k < n ==> q[k] == slots[Slot(start, k)]
  {
    seq(n, k requires 0 <= k < n => slots[Slot(start, k)])
  }

  ghost predicate DeadSlotsZeroed(slots: seq<Entry>, start: nat, n: nat)
    requires |slots| == CAPACITY && start < CAPACITY
  {
    forall k :: n <= k < CAPACITY ==> slots[Slot(start, k)] == NO_ENTRY
  }

  /** Writing the slot after the last live one appends to a ring with room. */
  lemma LiveAppend(slots: seq<Entry>, start: nat, n: nat, e: Entry)
    requires |slots| == CAPACITY && start < CAPACITY && n < CAPACITY
    requires DeadSlotsZeroed(slots, start, n)
    ensures Live(slots[Slot(start, n) := e], start, n + 1) == Push(Live(slots, start, n), e)
    ensures DeadSlotsZeroed(slots[Slot(start, n) := e], start, n + 1)
  {
  }

  /** In a full ring that slot is the oldest live one, and the ring turns by one. */
  lemma LiveReplace(slots: seq<Entry>, start: nat, e: Entry)
    requires |slots| == CAPACITY && start < CAPACITY
    ensures Slot(start, CAPACITY) == start
    ensures Live(slots[start := e], Slot(start, 1), CAPACITY) == Push(Live(slots, start, CAPACITY), e)
    ensures DeadSlotsZeroed(slots[start := e], Slot(start, 1), CAPACITY)
  {
  }

  /** What adding an entry comes to, on the slots: the queue step, with the sizes right. */
  lemma AddStep(slots: seq<Entry>, start: nat, n: nat, e: Entry, start': nat, n': nat)
    requires |slots| == CAPACITY && start < CAPACITY && n <= CAPACITY && DeadSlotsZeroed(slots, start, n)
    requires n < CAPACITY ==> start' == start && n' == n + 1
    requires n == CAPACITY ==> start' == (start + 1) % CAPACITY && n' == n
    ensures start' < CAPACITY && n' <= CAPACITY
    ensures var q, at := Live(slots, start, n), Slot(start, n);
            && Live(slots[at := e], start', n') == Push(q, e) && DeadSlotsZeroed(slots[at := e], start', n')
            && Slot(start', n') == (at + 1) % CAPACITY
            && if n < CAPACITY then
                 Push(q, e) == q + [e] && Total(EntrySizes(Push(q, e))) == Total(EntrySizes(q)) + e.size
               else
                 && Push(q, e) == q[1..] + [e] && q[0] == slots[at] && q[0].size <= Total(EntrySizes(q))
                 && Total(EntrySizes(Push(q, e))) == Total(EntrySizes(q)) - q[0].size + e.size
  {
    var q := Live(slots, start, n);
    PushTotal(q, e);
    SlotIsModulo(Slot(start, n), 1);
    SlotIsModulo(start, 1);
    if n == CAPACITY {
      LiveReplace(slots, start, e);
      TotalSplit(EntrySizes(q), 1);
      assert PrefixSum(EntrySizes(q), 1) == PrefixSum(EntrySizes(q), 0) + q[0].size;
    } else {
      LiveAppend(slots, start, n, e);
    }
    hide Live, DeadSlotsZeroed, PrefixSum;
  }

  class CircularBuffer {
    const entry: array<Entry>
    var inOffs: uint8
    var outOffs: uint8
    var numEntries: uint8
    var size: size_t

    ghost predicate Valid()
      reads this, entry
    {
      && entry.Length == CAPACITY
      && outOffs < CAPACITY
      && numEntries <= CAPACITY
      && inOffs == Slot(outOffs, numEntries)
      && size == Total(EntrySizes(Queue()))
      && DeadSlotsZeroed(entry[..], outOffs, numEntries)
    }

    /** The live entries, oldest first. */
    ghost function Queue(): (q: seq<Entry>)
      reads this, entry
      requires entry.Length == CAPACITY && outOffs < CAPACITY && numEntries <= CAPACITY
    {
      Live(entry[..], outOffs, numEntries)
    }

    predicate Empty()
      requires Valid()
      reads this, entry
      ensures Empty() <==> Queue() == []
    {
      numEntries == 0
    }

    predicate Full()
      requires Valid()
      reads this, entry
      ensures Full() <==> |Queue()| == 10
      ensures Full() <==> forall e :: |Push(Queue(), e)| == |Queue()|
    {
      assert numEntries < CAPACITY ==> |Push(Queue(), NO_ENTRY)| == |Queue()| + 1;
      numEntries == CAPACITY
    }

    /** aesd_circular_buffer_init: everything is zeroed. */
    constructor ()
      ensures Valid() && fresh(entry)
      ensures Queue() == []
    {
      entry := new Entry[CAPACITY](_ => NO_ENTRY);
      inOffs, outOffs, numEntries, size := 0, 0, 0, 0;
    }

    /**
      The live buffers and the new one are in memory at the same time, hence the bound.
      Returns the buffer that the new entry pushes out of a full ring, or NULL.
     */
    method AddEntry(e: Entry) returns (replaced: Pointer)
      requires Valid()
      requires Total(EntrySizes(Queue())) + e.size < SIZE_MODULUS
      modifies this, entry
      ensures Valid()
      ensures Queue() == Push(old(Queue()), e) && |Queue()| <= 10
      ensures |old(Queue())| < 10 ==> Queue() == old(Queue()) + [e] && replaced == NULL
      ensures |old(Queue())| == 10 ==> Queue() == old(Queue())[1..] + [e] && replaced == old(Queue())[0].buffptr
    {
      ghost var slots, start, n := entry[..], outOffs, numEntries;
      hide Slot, Live, DeadSlotsZeroed, Push, Total, EntrySizes;
      replaced := MakeRoom();
      AddStep(slots, start, n, e, outOffs, numEntries);
      PutEntry(e);
    }

    /** The oldest entry of a full ring is given up; otherwise there will be one more. */
    method MakeRoom() returns (replaced: Pointer)
      requires Valid()
      modifies this`outOffs, this`numEntries, this`size
      ensures old(numEntries) < CAPACITY ==>
                replaced == NULL && numEntries == old(numEntries) + 1 && size == old(size) && outOffs == old(outOffs)
      ensures old(numEntries) == CAPACITY ==>
                && replaced == entry[inOffs].buffptr && numEntries == old(numEntries)
                && size == SizeSub(old(size), entry[inOffs].size) && outOffs == (old(outOffs) + 1) % CAPACITY
    {
      replaced := NULL;
      if Full() {
        replaced := entry[inOffs].buffptr;
        size := SizeSub(size, entry[inOffs].size);
        outOffs := (outOffs + 1) % CAPACITY;
      } else {
        numEntries := Uint8Increment(numEntries);
      }
    }

    /** The new entry goes to the insertion slot, which moves on. */
    method PutEntry(e: Entry)
      requires entry.Length == CAPACITY && inOffs < CAPACITY
      modifies this`inOffs, this`size, entry
      ensures entry[..] == old(entry[..])[old(inOffs) := e]
      ensures size == SizeAdd(old(size), e.size) && inOffs == (old(inOffs) + 1) % CAPACITY
    {
      entry[inOffs] := e;
      size := SizeAdd(size, e.size);
      inOffs := (inOffs + 1) % CAPACITY;
    }

    /** Where the byte at `charOffset` is: its slot, and its place in the slot's buffer. */
    ghost function Finds(charOffset: nat): Option<Found>
      requires Valid()
      reads this, entry
    {
      match Locate(EntrySizes(Queue()), charOffset)
      case None => None
      case Some(at) => Some(Found(Slot(outOffs, at.command), at.offset))
    }

    /** What the `int` result for a pair is. */
    ghost function Fpos(index: nat, offset: nat): int32
      requires Valid()
      reads this, entry
    {
      match Position(EntrySizes(Queue()), index, offset)
      case None => -1
      case Some(pos) => ToInt(pos)
    }

    /**
      The two directions undo each other on every valid ring whose bytes an `int` can count:
      a pair has a position exactly when finding that position leads back to the pair.
     */
    lemma FindUndoesFpos(index: nat, offset: nat, pos: nat)
      requires Valid() && size <= INT_MAX
      ensures Fpos(index, offset) == pos <==>
              index < numEntries && Finds(pos) == Some(Found(Slot(outOffs, index), offset))
      ensures Fpos(index, offset) < 0 <==> Position(EntrySizes(Queue()), index, offset) == None
    {
      hide Locate, PrefixSum, ToInt;
      var sizes := EntrySizes(Queue());
      Bijection(sizes, pos, index, offset);
      if Position(sizes, index, offset).Some? {
        PositionBelowTotal(sizes, index, offset);
        ToIntExact(Position(sizes, index, offset).value);
      }
    }

    /**
      The entry that holds the byte at `charOffset` of the concatenated entries.
     */
    method FindEntryOffsetForFpos(charOffset: size_t) returns (found: Option<Found>)
      requires Valid()
      ensures found.Some? <==> charOffset < size
      ensures found == Finds(charOffset)
    {
      found := None;
      ghost var sizes := EntrySizes(Queue());
      LocatedIffBelowTotal(sizes, charOffset);
      if !Empty() {
        var currentOffs, currentSize: size_t := outOffs, 0;
        ghost var k := 0;
        var again := true;
        assert Slot(outOffs, 0) == outOffs;
        assert PrefixSum(sizes, 0) == 0 && Locate(sizes, charOffset) == LocateFrom(sizes, 0, charOffset);
        hide Locate, LocateFrom, PrefixSum, Live, EntrySizes, DeadSlotsZeroed, Slot, SizeAdd, SizeSub;
        while again
          invariant k <= numEntries
          invariant found.Some? ==> !again && found == Finds(charOffset)
          invariant found == None ==>
                      && (again <==> k < numEntries)
                      && currentOffs == Slot(outOffs, k)
                      && currentSize == PrefixSum(sizes, k) <= charOffset
                      && Locate(sizes, charOffset) == LocateFrom(sizes, k, charOffset)
          decreases again, numEntries - k
        {
          WalkStep(k, charOffset, currentSize);
          if charOffset < SizeAdd(currentSize, entry[currentOffs].size) {
            found := Some(Found(currentOffs, SizeSub(charOffset, currentSize)));
          } else {
            currentSize := SizeAdd(currentSize, entry[currentOffs].size);
            currentOffs := (currentOffs + 1) % CAPACITY;
            k := k + 1;
          }
          again := currentOffs != inOffs && found == None;
        }
      }
    }

    /** One turn of the search: the entry at the `k`-th live slot holds the byte, or the next one is looked at. */
    lemma WalkStep(k: nat, charOffset: size_t, currentSize: size_t)
      requires Valid() && k < numEntries
      requires currentSize == PrefixSum(EntrySizes(Queue()), k) <= charOffset
      ensures var sizes, offs := EntrySizes(Queue()), Slot(outOffs, k);
              var end := SizeAdd(currentSize, entry[offs].size);
              && end == PrefixSum(sizes, k + 1)
              && LocateFrom(sizes, k, charOffset) ==
                 (if charOffset < end then Some(Place(k, SizeSub(charOffset, currentSize)))
                  else LocateFrom(sizes, k + 1, charOffset))
              && (offs + 1) % CAPACITY == Slot(outOffs, k + 1)
              && (Slot(outOffs, k + 1) == inOffs <==> k + 1 == numEntries)
    {
      SizeStep(k);
      LocateStep(EntrySizes(Queue()), k, charOffset);
      NextSlot(outOffs, k, numEntries);
    }

    /** Adding the size of one more live entry stays within the total, so no `size_t` sum wraps. */
    lemma SizeStep(k: nat)
      requires Valid() && k < numEntries
      ensures entry[(outOffs + k) % CAPACITY].size == EntrySizes(Queue())[k]
      ensures PrefixSum(EntrySizes(Queue()), k) + EntrySizes(Queue())[k] == PrefixSum(EntrySizes(Queue()), k + 1)
      ensures PrefixSum(EntrySizes(Queue()), k + 1) <= size
    {
      SlotIsModulo(outOffs, k);
      PrefixSumMonotone(EntrySizes(Queue()), k + 1, numEntries);
    }

    /**
      The flat position of byte `offset` of the `index`-th oldest entry, or -1.  The sum is
      kept in an `int`, so it comes back reduced to 32 bits.
     */
    method GetEntryFpos(index: uint32, offset: size_t) returns (fpos: int32)
      requires Valid()
      ensures fpos == Fpos(index, offset)
    {
      var entryFpos: int32 := 0;
      FposOutOfRange(index, offset);
      hide ToInt, PrefixSum, SizeAdd, SizeFromInt, Live, EntrySizes, DeadSlotsZeroed, Slot, Fpos;
      if numEntries <= index {
        return -1;
      }
      if entry[(outOffs + index) % CAPACITY].size <= offset {
        return -1;
      }
      ghost var sizes := EntrySizes(Queue());
      var i: uint8 := 0;
      while i < index
        invariant i <= index
        invariant entryFpos == ToInt(PrefixSum(sizes, i))
      {
        FposStep(i);
        entryFpos := ToInt(SizeAdd(SizeFromInt(entryFpos), entry[(outOffs + i) % CAPACITY].size));
        i := Uint8Increment(i);
      }
      FposEnd(index, offset);
      fpos := ToInt(SizeAdd(SizeFromInt(entryFpos), offset));
    }

    lemma FposOutOfRange(index: nat, offset: nat)
      requires Valid()
      ensures numEntries <= index ==> Fpos(index, offset) == -1
      ensures index < numEntries && entry[(outOffs + index) % CAPACITY].size <= offset ==> Fpos(index, offset) == -1
      ensures ToInt(PrefixSum(EntrySizes(Queue()), 0)) == 0
    {
      if index < numEntries {
        SizeStep(index);
      }
    }

    lemma FposStep(k: nat)
      requires Valid() && k < numEntries
      ensures var sizes := EntrySizes(Queue());
              ToInt(SizeAdd(SizeFromInt(ToInt(PrefixSum(sizes, k))), entry[(outOffs + k) % CAPACITY].size)) ==
              ToInt(PrefixSum(sizes, k + 1))
    {
      SizeStep(k);
      hide PrefixSum, ToInt, SizeAdd, SizeFromInt, Live;
      ToIntOfSum(PrefixSum(EntrySizes(Queue()), k), EntrySizes(Queue())[k]);
    }

    lemma FposEnd(index: nat, offset: size_t)
      requires Valid() && index < numEntries && offset < entry[(outOffs + index) % CAPACITY].size
      ensures ToInt(SizeAdd(SizeFromInt(ToInt(PrefixSum(EntrySizes(Queue()), index))), offset)) == Fpos(index, offset)
    {
      SizeStep(index);
      hide PrefixSum, ToInt, SizeAdd, SizeFromInt, Live;
      ToIntOfSum(PrefixSum(EntrySizes(Queue()), index), offset);
    }
  }
}
