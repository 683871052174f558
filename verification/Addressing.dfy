/**
  The two ways to name a byte of the device: a flat position in the concatenation of
  all entries, and a pair (command, offset within the command).  Both are stated over
  the sizes of the entries, oldest first; entries may be empty.
 */
module Addressing {
  import opened ByteStrings

  datatype Place = Place(command: nat, offset: nat)

  /** The number of bytes in the first `k` entries. */
  function PrefixSum(sizes: seq<nat>, k: nat): nat
    requires k <= |sizes|
  {
    if k == 0 then 0 else PrefixSum(sizes, k - 1) + sizes[k - 1]
  }

  function Total(sizes: seq<nat>): nat {
    PrefixSum(sizes, |sizes|)
  }

  /** From a flat position to a command: walk the entries, oldest first. */
  function Locate(sizes: seq<nat>, pos: nat): (at: Option<Place>)
    ensures at.Some? ==> at.value.command < |sizes| && at.value.offset < sizes[at.value.command]
  {
    LocateFrom(sizes, 0, pos)
  }

  function LocateFrom(sizes: seq<nat>, k: nat, pos: nat): (at: Option<Place>)
    requires k <= |sizes|
    requires PrefixSum(sizes, k) <= pos
    ensures at.Some? ==> at.value.command < |sizes| && at.value.offset < sizes[at.value.command]
    decreases |sizes| - k
  {
    if k == |sizes| then None
    else if pos < PrefixSum(sizes, k) + sizes[k] then Some(Place(k, pos - PrefixSum(sizes, k)))
    else LocateFrom(sizes, k + 1, pos)
  }

  /** One step of the walk. */
  lemma LocateStep(sizes: seq<nat>, k: nat, pos: nat)
    requires k < |sizes| && PrefixSum(sizes, k) <= pos
    ensures PrefixSum(sizes, k + 1) == PrefixSum(sizes, k) + sizes[k]
    ensures LocateFrom(sizes, k, pos) ==
            if pos < PrefixSum(sizes, k + 1) then Some(Place(k, pos - PrefixSum(sizes, k)))
            else LocateFrom(sizes, k + 1, pos)
  {
  }

  /** From a command to a flat position; nothing when command or offset is out of range. */
  function Position(sizes: seq<nat>, command: nat, offset: nat): Option<nat> {
    if command < |sizes| && offset < sizes[command]
    then Some(PrefixSum(sizes, command) + offset)
    else None
  }

  lemma {:induction false} PrefixSumMonotone(sizes: seq<nat>, j: nat, k: nat)
    requires j <= k <= |sizes|
    ensures PrefixSum(sizes, j) <= PrefixSum(sizes, k)
  {
    if j < k {
      PrefixSumMonotone(sizes, j, k - 1);
    }
  }

  lemma {:induction false} LocateFromInverse(sizes: seq<nat>, k: nat, pos: nat, command: nat, offset: nat)
    requires k <= |sizes| && PrefixSum(sizes, k) <= pos
    ensures LocateFrom(sizes, k, pos) == Some(Place(command, offset)) <==>
            k <= command && Position(sizes, command, offset) == Some(pos)
    ensures LocateFrom(sizes, k, pos).Some? <==> pos < Total(sizes)
    decreases |sizes| - k
  {
    if k < |sizes| {
      PrefixSumMonotone(sizes, k + 1, |sizes|);
      assert PrefixSum(sizes, k + 1) == PrefixSum(sizes, k) + sizes[k];
      if pos < PrefixSum(sizes, k + 1) {
        if k < command < |sizes| {
          PrefixSumMonotone(sizes, k + 1, command);
        }
      } else {
        LocateFromInverse(sizes, k + 1, pos, command, offset);
      }
    }
  }

  /** The two schemes are inverse to each other, whatever the sizes. */
  lemma Bijection(sizes: seq<nat>, pos: nat, command: nat, offset: nat)
    ensures Locate(sizes, pos) == Some(Place(command, offset)) <==>
            Position(sizes, command, offset) == Some(pos)
  {
    LocateFromInverse(sizes, 0, pos, command, offset);
  }

  /** A position can be located exactly when it lies below the total size. */
  lemma LocatedIffBelowTotal(sizes: seq<nat>, pos: nat)
    ensures Locate(sizes, pos).Some? <==> pos < Total(sizes)
  {
    LocateFromInverse(sizes, 0, pos, 0, 0);
  }

  /** Every valid pair names a position below the total. */
  lemma PositionBelowTotal(sizes: seq<nat>, command: nat, offset: nat)
    requires Position(sizes, command, offset).Some?
    ensures Position(sizes, command, offset).value < Total(sizes)
  {
    PrefixSumMonotone(sizes, command + 1, |sizes|);
  }

  // ---------- entries with their bytes ----------

  function Sizes(entries: seq<Bytes>): (sizes: seq<nat>)
    ensures |sizes| == |entries|
    ensures forall i :: 0 <= i < |entries| ==> sizes[i] == |entries[i]|
  {
    seq(|entries|, i requires 0 <= i < |entries| => |entries[i]|)
  }

  lemma {:induction false} PrefixSumIsLength(entries: seq<Bytes>, k: nat)
    requires k <= |entries|
    ensures PrefixSum(Sizes(entries), k) == |Flatten(entries[..k])|
  {
    if k > 0 {
      PrefixSumIsLength(entries, k - 1);
      assert entries[..k] == entries[..k - 1] + [entries[k - 1]];
      FlattenSnoc(entries[..k - 1], entries[k - 1]);
    }
  }

  lemma TotalIsLength(entries: seq<Bytes>)
    ensures Total(Sizes(entries)) == |Flatten(entries)|
  {
    PrefixSumIsLength(entries, |entries|);
    assert entries[..|entries|] == entries;
  }

  lemma SplitAt(entries: seq<Bytes>, k: nat)
    requires k < |entries|
    ensures Flatten(entries) == Flatten(entries[..k]) + entries[k] + Flatten(entries[k + 1..])
  {
    assert entries == entries[..k] + entries[k..];
    FlattenAppend(entries[..k], entries[k..]);
    assert entries[k..][1..] == entries[k + 1..];
  }

  lemma SliceInto(before: Bytes, entry: Bytes, after: Bytes, offset: nat, n: nat)
    requires offset + n <= |entry|
    ensures (before + entry + after)[|before| + offset..|before| + offset + n] == entry[offset..offset + n]
  {
  }

  /**
    What a located place means in bytes: the run of `n` bytes that starts at the place
    inside its entry is the run that starts at the flat position.
   */
  lemma LocatedBytes(entries: seq<Bytes>, pos: nat, n: nat)
    requires Locate(Sizes(entries), pos).Some?
    requires var at := Locate(Sizes(entries), pos).value; at.offset + n <= |entries[at.command]|
    ensures var at := Locate(Sizes(entries), pos).value;
            && at.offset < |entries[at.command]|
            && pos + n <= |Flatten(entries)|
            && entries[at.command][at.offset..at.offset + n] == Flatten(entries)[pos..pos + n]
  {
    hide Flatten, Locate;
    var at := Locate(Sizes(entries), pos).value;
    Bijection(Sizes(entries), pos, at.command, at.offset);
    hide PrefixSum;
    PrefixSumIsLength(entries, at.command);
    SplitAt(entries, at.command);
    SliceInto(Flatten(entries[..at.command]), entries[at.command], Flatten(entries[at.command + 1..]), at.offset, n);
  }
}
