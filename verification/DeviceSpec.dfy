/**
  The character device as a value: the live lines, oldest first, and the bytes staged
  until a newline arrives.  The functions here say what the driver's calls mean; the class
  `Devices.Device` is proved against them.
 */
module DeviceSpec {
  import opened ByteStrings
  import opened Addressing
  import opened CircularBuffers

  datatype Dev = Dev(lines: seq<Bytes>, staging: Bytes)

  const EMPTY := Dev([], [])

  // ---------- writing ----------

  /** One accepted write: only the last staged byte decides whether a line is committed. */
  function Accept(d: Dev, chunk: Bytes): Dev {
    var staged := d.staging + chunk;
    if EndsInNewline(staged) then Dev(Push(d.lines, staged), []) else Dev(d.lines, staged)
  }

  /**
    A write that brings the staged bytes to a newline (byte 10) commits them all as one line:
    a device of fewer than ten lines keeps every one, and one of ten loses the oldest.  Any
    other write only adds to the staged bytes.
   */
  lemma AcceptCommits(d: Dev, chunk: Bytes)
    requires |d.lines| <= 10
    ensures var staged := d.staging + chunk;
            if staged != [] && staged[|staged| - 1] == 10 then
              Accept(d, chunk) == Dev((if |d.lines| < 10 then d.lines else d.lines[1..]) + [staged], [])
            else
              Accept(d, chunk) == Dev(d.lines, staged)
  {
  }

  function AcceptAll(d: Dev, chunks: seq<Bytes>): Dev
    decreases |chunks|
  {
    if chunks == [] then d else AcceptAll(Accept(d, chunks[0]), chunks[1..])
  }

  lemma {:induction false} AcceptAllAppend(d: Dev, a: seq<Bytes>, b: seq<Bytes>)
    ensures AcceptAll(d, a + b) == AcceptAll(AcceptAll(d, a), b)
    decreases |a|
  {
    if a == [] {
      assert a + b == b;
    } else {
      assert (a + b)[1..] == a[1..] + b;
      AcceptAllAppend(Accept(d, a[0]), a[1..], b);
    }
  }

  lemma AcceptAllSnoc(d: Dev, a: seq<Bytes>, c: Bytes)
    ensures AcceptAll(d, a + [c]) == Accept(AcceptAll(d, a), c)
  {
    AcceptAllAppend(d, a, [c]);
    assert [c][1..] == [];
    assert AcceptAll(Accept(AcceptAll(d, a), c), []) == Accept(AcceptAll(d, a), c);
  }

  /** Committed lines, without eviction, and what is left over. */
  datatype Cut = Cut(lines: seq<Bytes>, rest: Bytes)

  /**
    The reference reading of a series of writes: cut the series after each chunk that ends
    in a newline; each group of chunks is one line.  `pending` is what came before.
   */
  function Groups(pending: Bytes, chunks: seq<Bytes>): Cut
    decreases |chunks|
  {
    if chunks == [] then Cut([], pending)
    else if EndsInNewline(chunks[0]) then
      var later := Groups([], chunks[1..]);
      Cut([pending + chunks[0]] + later.lines, later.rest)
    else
      Groups(pending + chunks[0], chunks[1..])
  }

  /**
    Over any series of accepted writes the device holds the last ten groups, and stages
    the unfinished one.
   */
  lemma {:induction false} DeviceHoldsLastGroups(history: seq<Bytes>, pending: Bytes, chunks: seq<Bytes>)
    requires !EndsInNewline(pending)
    ensures var g := Groups(pending, chunks);
            AcceptAll(Dev(LastN(10, history), pending), chunks) ==
            Dev(LastN(10, history + g.lines), g.rest)
    decreases |chunks|
  {
    if chunks == [] {
      assert history + [] == history;
    } else {
      var staged := pending + chunks[0];
      assert chunks[0] != [] ==> staged[|staged| - 1] == chunks[0][|chunks[0]| - 1];
      assert chunks[0] == [] ==> staged == pending;
      if EndsInNewline(chunks[0]) {
        PushLastN(history, staged);
        DeviceHoldsLastGroups(history + [staged], [], chunks[1..]);
        var later := Groups([], chunks[1..]).lines;
        assert history + [staged] + later == history + ([staged] + later);
      } else {
        DeviceHoldsLastGroups(history, staged, chunks[1..]);
      }
    }
  }

  /** No byte is lost, repeated or reordered. */
  lemma {:induction false} GroupsConserveBytes(pending: Bytes, chunks: seq<Bytes>)
    ensures var g := Groups(pending, chunks); Flatten(g.lines) + g.rest == pending + Flatten(chunks)
    decreases |chunks|
  {
    if chunks != [] {
      if EndsInNewline(chunks[0]) {
        var later := Groups([], chunks[1..]);
        GroupsConserveBytes([], chunks[1..]);
        FlattenAppend([pending + chunks[0]], later.lines);
        FlattenOne(pending + chunks[0]);
        assert pending + chunks[0] + (Flatten(later.lines) + later.rest) == pending + Flatten(chunks);
      } else {
        GroupsConserveBytes(pending + chunks[0], chunks[1..]);
        assert pending + chunks[0] + Flatten(chunks[1..]) == pending + Flatten(chunks);
      }
    }
  }

  /** Every committed line ends in a newline; what is staged never does. */
  lemma {:induction false} GroupsEndInNewline(pending: Bytes, chunks: seq<Bytes>)
    requires !EndsInNewline(pending)
    ensures var g := Groups(pending, chunks);
            (forall i :: 0 <= i < |g.lines| ==> EndsInNewline(g.lines[i])) && !EndsInNewline(g.rest)
    decreases |chunks|
  {
    if chunks != [] {
      if EndsInNewline(chunks[0]) {
        GroupsEndInNewline([], chunks[1..]);
      } else {
        assert chunks[0] == [] ==> pending + chunks[0] == pending;
        GroupsEndInNewline(pending + chunks[0], chunks[1..]);
      }
    }
  }

  /**
    Byte conservation over every series of writes from the empty device: evicted lines,
    live lines and staged bytes are together exactly the accepted bytes in order; the live
    lines are the last ten of all committed ones.
   */
  lemma Conservation(chunks: seq<Bytes>)
    ensures var g, d := Groups([], chunks), AcceptAll(EMPTY, chunks);
            && d.lines == LastN(10, g.lines)
            && |d.lines| == (if |g.lines| < 10 then |g.lines| else 10)
            && d.staging == g.rest
            && !EndsInNewline(d.staging)
            && |d.lines| <= |g.lines|
            && var evicted := g.lines[..|g.lines| - |d.lines|];
               Flatten(evicted) + Flatten(d.lines) + d.staging == Flatten(chunks)
  {
    hide Flatten, Groups, AcceptAll;
    var g, d := Groups([], chunks), AcceptAll(EMPTY, chunks);
    DeviceHoldsLastGroups([], [], chunks);
    assert [] + g.lines == g.lines;
    GroupsConserveBytes([], chunks);
    GroupsEndInNewline([], chunks);
    KeepLast(g.lines);
  }

  lemma KeepLast(lines: seq<Bytes>)
    ensures var last := LastN(10, lines);
            |last| <= |lines| && Flatten(lines[..|lines| - |last|]) + Flatten(last) == Flatten(lines)
  {
    var last := LastN(10, lines);
    var evicted := lines[..|lines| - |last|];
    assert lines == evicted + last;
    FlattenAppend(evicted, last);
  }

  /**
    What a group is, without recursion: line `i` is an unbroken run of chunks, of which only
    the last ends in a newline, and it starts where the previous run ended.
   */
  lemma {:induction false} LineIsARun(pending: Bytes, chunks: seq<Bytes>, i: nat) returns (a: nat, b: nat)
    requires i < |Groups(pending, chunks).lines|
    ensures IsRun(pending, chunks, i, Groups(pending, chunks).lines[i], a, b)
    decreases |chunks|
  {
    LineOfTail(pending, chunks, i);
    var first, rest := chunks[0], chunks[1..];
    var ends := EndsInNewline(first);
    if ends && i == 0 {
      a, b := 0, 0;
      assert chunks[0..1] == [first];
      FlattenOne(first);
    } else {
      a, b := LineIsARun(if ends then [] else pending + first, rest, if ends then i - 1 else i);
      var line := Groups(pending, chunks).lines[i];
      hide Groups, EndsInNewline, Flatten, IsRun;
      if i == 0 {
        FirstRunGrows(pending, chunks, line, b);
        a, b := 0, b + 1;
      } else {
        LaterRunShifts(pending, chunks, i, line, a, b);
        a, b := a + 1, b + 1;
      }
    }
  }

  /** Line `i` is made of the chunks from `a` to `b`, and of what was pending if it is the first. */
  ghost predicate IsRun(pending: Bytes, chunks: seq<Bytes>, i: nat, line: Bytes, a: nat, b: nat) {
    && a <= b < |chunks|
    && line == (if i == 0 then pending + Flatten(chunks[a..b + 1]) else Flatten(chunks[a..b + 1]))
    && EndsInNewline(chunks[b])
    && (forall k :: a <= k < b ==> !EndsInNewline(chunks[k]))
    && (if i == 0 then a == 0 else a > 0 && EndsInNewline(chunks[a - 1]))
  }

  lemma FirstRunGrows(pending: Bytes, chunks: seq<Bytes>, line: Bytes, b: nat)
    requires chunks != [] && !EndsInNewline(chunks[0])
    requires IsRun(pending + chunks[0], chunks[1..], 0, line, 0, b)
    ensures IsRun(pending, chunks, 0, line, 0, b + 1)
  {
    hide EndsInNewline, Flatten;
    RunOfTail(chunks, 0, b + 1);
    Associate(pending, chunks[0], Flatten(chunks[1..][0..b + 1]));
  }

  lemma LaterRunShifts(pending: Bytes, chunks: seq<Bytes>, i: nat, line: Bytes, a: nat, b: nat)
    requires chunks != [] && i > 0
    requires var ends := EndsInNewline(chunks[0]);
             IsRun(if ends then [] else pending + chunks[0], chunks[1..], if ends then i - 1 else i, line, a, b)
    ensures IsRun(pending, chunks, i, line, a + 1, b + 1)
  {
    hide EndsInNewline, Flatten;
    RunOfTail(chunks, a, b + 1);
    Associate([], [], Flatten(chunks[1..][a..b + 1]));
  }

  lemma Associate(x: Bytes, y: Bytes, z: Bytes)
    ensures x + y + z == x + (y + z) && [] + z == z
  {
  }

  /** Line `i` is the first group, or a line of what comes after the first chunk. */
  lemma LineOfTail(pending: Bytes, chunks: seq<Bytes>, i: nat)
    requires i < |Groups(pending, chunks).lines|
    ensures chunks != []
    ensures var first, rest, line := chunks[0], chunks[1..], Groups(pending, chunks).lines[i];
            if EndsInNewline(first) then
              if i == 0 then line == pending + first
              else i - 1 < |Groups([], rest).lines| && line == Groups([], rest).lines[i - 1]
            else
              i < |Groups(pending + first, rest).lines| && line == Groups(pending + first, rest).lines[i]
  {
    hide EndsInNewline;
  }

  lemma RunOfTail(chunks: seq<Bytes>, a: nat, b: nat)
    requires a <= b < |chunks|
    ensures chunks[a + 1..b + 1] == chunks[1..][a..b]
    ensures forall k :: 0 < k < |chunks| ==> chunks[k] == chunks[1..][k - 1]
    ensures a == 0 ==> Flatten(chunks[0..b + 1]) == chunks[0] + Flatten(chunks[1..][0..b])
  {
    assert chunks[0..b + 1][1..] == chunks[1..][0..b];
  }

  /** A part of a line: something was written, but not its newline. */
  predicate Torn(part: Bytes) {
    part != [] && !EndsInNewline(part)
  }

  /** The parts that are lines of their own. */
  function Whole(parts: seq<Bytes>): seq<Bytes> {
    if parts == [] then []
    else (if EndsInNewline(parts[0]) then [parts[0]] else []) + Whole(parts[1..])
  }

  /** Nothing torn comes before anything whole. */
  ghost predicate Unspoilt(pending: Bytes, parts: seq<Bytes>) {
    forall j, k :: 0 <= k < |parts| && EndsInNewline(parts[k]) ==>
      pending == [] && (0 <= j < k ==> !Torn(parts[j]))
  }

  /** The committed lines are the whole parts exactly when nothing torn comes before a whole one. */
  lemma {:induction false} CleanLinesIff(pending: Bytes, parts: seq<Bytes>)
    requires !EndsInNewline(pending)
    ensures Groups(pending, parts).lines == Whole(parts) <==> Unspoilt(pending, parts)
    decreases |parts|
  {
    if parts != [] {
      var first, rest := parts[0], parts[1..];
      if EndsInNewline(first) {
        CleanLinesIff([], rest);
        UnspoiltTail(pending, parts);
        assert Groups(pending, parts).lines[1..] == Groups([], rest).lines;
        assert Whole(parts)[1..] == Whole(rest);
        assert pending + first == first <==> pending == [];
      } else {
        assert first == [] ==> pending + first == pending;
        CleanLinesIff(pending + first, rest);
        UnspoiltTail(pending, parts);
        assert [] + Whole(rest) == Whole(rest);
      }
    }
  }

  lemma UnspoiltTail(pending: Bytes, parts: seq<Bytes>)
    requires parts != []
    ensures EndsInNewline(parts[0]) ==> (Unspoilt(pending, parts) <==> pending == [] && Unspoilt([], parts[1..]))
    ensures !EndsInNewline(parts[0]) ==> (Unspoilt(pending, parts) <==> Unspoilt(pending + parts[0], parts[1..]))
  {
    var first, rest := parts[0], parts[1..];
    assert forall k :: 0 < k < |parts| ==> parts[k] == rest[k - 1];
    if Unspoilt(pending, parts) {
      forall j, k | 0 <= k < |rest| && EndsInNewline(rest[k])
        ensures (if EndsInNewline(first) then true else pending + first == []) && (0 <= j < k ==> !Torn(rest[j]))
      {
        assert EndsInNewline(parts[k + 1]);
        assert !Torn(parts[0]);
        assert 0 <= j < k ==> !Torn(parts[j + 1]);
      }
      if EndsInNewline(first) {
        assert EndsInNewline(parts[0]);
      }
    }
    var pending' := if EndsInNewline(first) then [] else pending + first;
    if Unspoilt(pending', rest) && (EndsInNewline(first) ==> pending == []) {
      forall j, k | 0 <= k < |parts| && EndsInNewline(parts[k])
        ensures pending == [] && (0 <= j < k ==> !Torn(parts[j]))
      {
        if k > 0 {
          assert EndsInNewline(rest[k - 1]);
          assert 0 < j < k ==> !Torn(rest[j - 1]);
        }
      }
    }
  }

  lemma {:induction false} GroupsSnoc(pending: Bytes, chunks: seq<Bytes>, c: Bytes)
    ensures var g := Groups(pending, chunks);
            Groups(pending, chunks + [c]) ==
            if EndsInNewline(c) then Cut(g.lines + [g.rest + c], []) else Cut(g.lines, g.rest + c)
    decreases |chunks|
  {
    if chunks == [] {
      assert (chunks + [c])[1..] == [];
    } else {
      assert (chunks + [c])[1..] == chunks[1..] + [c];
      GroupsSnoc(if EndsInNewline(chunks[0]) then [] else pending + chunks[0], chunks[1..], c);
    }
  }

  /** Every torn part is followed by a whole one. */
  ghost predicate Settled(parts: seq<Bytes>) {
    forall j :: 0 <= j < |parts| && Torn(parts[j]) ==> exists i :: j < i < |parts| && EndsInNewline(parts[i])
  }

  lemma SettledSnoc(parts: seq<Bytes>, c: Bytes)
    ensures Settled(parts + [c]) <==> EndsInNewline(c) || (Settled(parts) && c == [])
  {
    var all := parts + [c];
    assert all[|parts|] == c;
    if Settled(parts) && c == [] {
      forall j | 0 <= j < |all| && Torn(all[j])
        ensures exists i :: j < i < |all| && EndsInNewline(all[i])
      {
        var i :| j < i < |parts| && EndsInNewline(parts[i]);
        assert all[i] == parts[i];
      }
    }
    if Settled(all) && !EndsInNewline(c) {
      forall j | 0 <= j < |parts| && Torn(parts[j])
        ensures exists i :: j < i < |parts| && EndsInNewline(parts[i])
      {
        assert all[j] == parts[j];
        var i :| j < i < |all| && EndsInNewline(all[i]);
        assert parts[i] == all[i];
      }
    }
  }

  /** Nothing stays staged exactly when every torn part is followed by a whole one. */
  lemma {:induction false} NothingStagedIff(parts: seq<Bytes>)
    ensures Groups([], parts).rest == [] <==> Settled(parts)
    decreases |parts|
  {
    if parts != [] {
      var prefix, c := parts[..|parts| - 1], parts[|parts| - 1];
      assert parts == prefix + [c];
      NothingStagedIff(prefix);
      GroupsSnoc([], prefix, c);
      SettledSnoc(prefix, c);
    }
  }

  // ---------- chunking ----------

  ghost predicate IsChunking(chunks: seq<Bytes>, data: Bytes) {
    && Flatten(chunks) == data
    && forall i :: 0 <= i < |chunks| ==> chunks[i] != []
  }

  lemma NoChunksIffNoData(chunks: seq<Bytes>, data: Bytes)
    requires IsChunking(chunks, data)
    ensures chunks == [] <==> data == []
  {
    if chunks != [] {
      assert data == chunks[0] + Flatten(chunks[1..]);
    }
  }

  /** Data without an inner newline is one line, or part of one, however it is chunked. */
  lemma {:induction false} ChunksOfOneLine(pending: Bytes, chunks: seq<Bytes>, data: Bytes)
    requires IsChunking(chunks, data) && data != []
    requires NEWLINE !in data[..|data| - 1]
    ensures Groups(pending, chunks) ==
            if EndsInNewline(data) then Cut([pending + data], []) else Cut([], pending + data)
    decreases |chunks|
  {
    var first, rest := chunks[0], Flatten(chunks[1..]);
    assert data == first + rest;
    assert IsChunking(chunks[1..], rest);
    if rest == [] {
      NoChunksIffNoData(chunks[1..], rest);
      assert first == data;
    } else {
      assert forall i :: 0 <= i < |first| ==> first[i] == data[..|data| - 1][i];
      assert forall i :: 0 <= i < |rest| - 1 ==> rest[i] == data[..|data| - 1][|first| + i];
      assert rest[|rest| - 1] == data[|data| - 1];
      ChunksOfOneLine(pending + first, chunks[1..], rest);
      assert pending + first + rest == pending + data;
    }
  }

  ghost predicate ChunkingIndependent(data: Bytes) {
    forall a, b :: IsChunking(a, data) && IsChunking(b, data) ==> Groups([], a) == Groups([], b)
  }

  /** Chunking does not matter exactly when no newline stands before the last byte. */
  lemma ChunkingIndependentIff(data: Bytes)
    requires data != []
    ensures ChunkingIndependent(data) <==> NEWLINE !in data[..|data| - 1]
  {
    hide Groups;
    if NEWLINE in data[..|data| - 1] {
      var i :| 0 <= i < |data| - 1 && data[i] == NEWLINE;
      CutAfterNewline(data, i);
    } else {
      forall a, b | IsChunking(a, data) && IsChunking(b, data)
        ensures Groups([], a) == Groups([], b)
      {
        ChunksOfOneLine([], a, data);
        ChunksOfOneLine([], b, data);
      }
    }
  }

  /** Data cut after an inner newline and data written at once give different lines. */
  lemma CutAfterNewline(data: Bytes, i: nat)
    requires i < |data| - 1 && data[i] == NEWLINE
    ensures !ChunkingIndependent(data)
  {
    var head, tail := data[..i + 1], data[i + 1..];
    var a, b := [data], [head, tail];
    assert a[1..] == [] && b[1..] == [tail];
    assert data == head + tail;
    FlattenOne(data);
    FlattenOne(tail);
    assert IsChunking(a, data) && IsChunking(b, data);
    assert [] + data == data && [] + head == head != data;
    assert Groups([], b).lines[0] == head;
    assert Groups([], a).lines != [] ==> Groups([], a).lines[0] == data;
  }

  /** On the device: a newline-free message and its newline are one line, however written. */
  lemma MessageIsOneLine(d: Dev, chunks: seq<Bytes>, message: Bytes)
    requires 10 !in message && d.staging == [] && |d.lines| <= 10
    requires IsChunking(chunks, message + [10])
    ensures AcceptAll(d, chunks) == Dev((if |d.lines| < 10 then d.lines else d.lines[1..]) + [message + [10]], [])
  {
    var data := message + [NEWLINE];
    assert data[..|data| - 1] == message;
    ChunksOfOneLine([], chunks, data);
    DeviceHoldsLastGroups(d.lines, [], chunks);
    PushLastN(d.lines, data);
    assert [] + data == data;
  }

  // ---------- reading ----------

  function Min(a: nat, b: nat): nat {
    if a < b then a else b
  }

  /** One read: at most `count` bytes, and never past the end of the located line. */
  function ReadAt(lines: seq<Bytes>, pos: nat, count: nat): Bytes {
    match Locate(Sizes(lines), pos)
    case None => []
    case Some(at) =>
      var line := lines[at.command];
      line[at.offset..at.offset + Min(count, |line| - at.offset)]
  }

  /** What follows position `pos` of a string; nothing past its end. */
  function From(flat: Bytes, pos: nat): Bytes {
    if pos <= |flat| then flat[pos..] else []
  }

  /** The flat contents from `pos` on. */
  function Rest(lines: seq<Bytes>, pos: nat): Bytes {
    From(Flatten(lines), pos)
  }

  lemma FromStep(flat: Bytes, pos: nat, n: nat)
    requires pos + n <= |flat|
    ensures flat[pos..pos + n] + From(flat, pos + n) == From(flat, pos)
  {
  }

  lemma ReadIsSlice(lines: seq<Bytes>, pos: nat, count: nat)
    ensures var data, flat := ReadAt(lines, pos, count), Flatten(lines);
            && |data| <= count
            && (pos < |flat| ==>
                 && pos + |data| <= |flat|
                 && data == flat[pos..pos + |data|]
                 && (data == [] <==> count == 0))
            && (pos >= |flat| ==> data == [])
  {
    hide Flatten, Locate, PrefixSum;
    LocatedIffBelowTotal(Sizes(lines), pos);
    TotalIsLength(lines);
    if Locate(Sizes(lines), pos).Some? {
      LocatedBytes(lines, pos, |ReadAt(lines, pos, count)|);
    }
  }

  /**
    What a read of `count` bytes at `pos` is, by the contents alone: nothing at the end; else
    the next bytes, `count` of them if the line that holds `pos` has so many left, and all
    that it has left if not.
   */
  ghost predicate IsReadOf(lines: seq<Bytes>, pos: nat, count: nat, data: Bytes) {
    var flat := Flatten(lines);
    if pos >= |flat| then data == []
    else
      exists k ::
        && HoldsPosition(lines, k, pos)
        && var end := |Flatten(lines[..k + 1])|;
           && end <= |flat|
           && data == flat[pos..if pos + count <= end then pos + count else end]
  }

  /** Line `k` holds position `pos`. */
  ghost predicate HoldsPosition(lines: seq<Bytes>, k: int, pos: nat) {
    0 <= k < |lines| && |Flatten(lines[..k])| <= pos < |Flatten(lines[..k + 1])|
  }

  /** Only one line holds a position, so only one byte string is such a read. */
  lemma ReadIsDetermined(lines: seq<Bytes>, pos: nat, count: nat, a: Bytes, b: Bytes)
    requires IsReadOf(lines, pos, count, a) && IsReadOf(lines, pos, count, b)
    ensures a == b
  {
    forall j, k | HoldsPosition(lines, j, pos) && HoldsPosition(lines, k, pos)
      ensures j == k
    {
      PrefixSumIsLength(lines, j);
      PrefixSumIsLength(lines, j + 1);
      PrefixSumIsLength(lines, k);
      PrefixSumIsLength(lines, k + 1);
      if j < k {
        PrefixSumMonotone(Sizes(lines), j + 1, k);
      }
      if k < j {
        PrefixSumMonotone(Sizes(lines), k + 1, j);
      }
    }
  }

  lemma PrefixFits(lines: seq<Bytes>, k: nat)
    requires k <= |lines|
    ensures |Flatten(lines[..k])| <= |Flatten(lines)|
  {
    assert lines == lines[..k] + lines[k..];
    FlattenAppend(lines[..k], lines[k..]);
  }

  /** A read goes up to `count` bytes or to the end of its line, whichever comes first. */
  lemma ReadStopsAtLineEnd(lines: seq<Bytes>, pos: nat, count: nat)
    ensures IsReadOf(lines, pos, count, ReadAt(lines, pos, count))
  {
    hide Flatten, Locate, PrefixSum;
    var flat := Flatten(lines);
    LocatedIffBelowTotal(Sizes(lines), pos);
    TotalIsLength(lines);
    if pos < |flat| {
      var at := Locate(Sizes(lines), pos).value;
      var k, data := at.command, ReadAt(lines, pos, count);
      Bijection(Sizes(lines), pos, k, at.offset);
      PrefixSumIsLength(lines, k);
      PrefixSumIsLength(lines, k + 1);
      assert PrefixSum(Sizes(lines), k + 1) == PrefixSum(Sizes(lines), k) + |lines[k]| by {
        LocateStep(Sizes(lines), k, pos);
      }
      PrefixFits(lines, k + 1);
      LocatedBytes(lines, pos, |data|);
      assert HoldsPosition(lines, k, pos);
    }
  }

  /**
    So a read below the end is as long as was asked for exactly if the line that holds the
    position has so many bytes left, and a shorter one ends where that line ends.
   */
  lemma ReadLength(lines: seq<Bytes>, pos: nat, count: nat, k: nat)
    requires HoldsPosition(lines, k, pos)
    ensures var n, end := |ReadAt(lines, pos, count)|, |Flatten(lines[..k + 1])|;
            && pos + n <= end
            && (n == count <==> pos + count <= end)
            && (n < count ==> pos + n == end)
  {
    ReadStopsAtLineEnd(lines, pos, count);
    var data, end := ReadAt(lines, pos, count), |Flatten(lines[..k + 1])|;
    PrefixFits(lines, k + 1);
    var again := Flatten(lines)[pos..if pos + count <= end then pos + count else end];
    assert IsReadOf(lines, pos, count, again);
    ReadIsDetermined(lines, pos, count, data, again);
  }

  /** A read returns the next bytes of the flat contents, and some whenever there are any. */
  lemma ReadIsPrefix(lines: seq<Bytes>, pos: nat, count: nat)
    ensures var data := ReadAt(lines, pos, count);
            && |data| <= count
            && data + Rest(lines, pos + |data|) == Rest(lines, pos)
            && (data == [] <==> count == 0 || Rest(lines, pos) == [])
  {
    ReadIsSlice(lines, pos, count);
    if pos < |Flatten(lines)| {
      FromStep(Flatten(lines), pos, |ReadAt(lines, pos, count)|);
    }
  }

  /** The bytes that a series of reads returns on an unchanging device. */
  function Stream(lines: seq<Bytes>, pos: nat, counts: seq<nat>): Bytes
    decreases |counts|
  {
    if counts == [] then []
    else
      var data := ReadAt(lines, pos, counts[0]);
      data + Stream(lines, pos + |data|, counts[1..])
  }

  lemma StreamStep(data: Bytes, later: Bytes, end: Bytes, middle: Bytes, whole: Bytes)
    requires later + end == middle && data + middle == whole
    ensures data + later + end == whole
    ensures |whole| == |data| + |middle|
    ensures later == middle ==> data + later == whole
  {
    assert data + later + end == data + (later + end);
  }

  /**
    Reads with any positive counts return the contents from `pos` in order, and as many
    reads as there are bytes left are enough to return all of them.
   */
  lemma {:induction false} StreamIsContents(lines: seq<Bytes>, pos: nat, counts: seq<nat>)
    requires forall i :: 0 <= i < |counts| ==> counts[i] > 0
    ensures var out := Stream(lines, pos, counts);
            && out + Rest(lines, pos + |out|) == Rest(lines, pos)
            && (|counts| >= |Rest(lines, pos)| ==> out == Rest(lines, pos))
    decreases |counts|
  {
    hide ReadAt, From, Flatten;
    if counts != [] {
      var data := ReadAt(lines, pos, counts[0]);
      var later := Stream(lines, pos + |data|, counts[1..]);
      ReadIsPrefix(lines, pos, counts[0]);
      StreamIsContents(lines, pos + |data|, counts[1..]);
      StreamStep(data, later, Rest(lines, pos + |data| + |later|), Rest(lines, pos + |data|), Rest(lines, pos));
    }
  }

  /** The stream is complete exactly when the next read of any positive count returns nothing. */
  lemma StreamEndsAtEmptyRead(lines: seq<Bytes>, pos: nat, counts: seq<nat>, count: nat)
    requires count > 0
    requires forall i :: 0 <= i < |counts| ==> counts[i] > 0
    ensures var out := Stream(lines, pos, counts);
            ReadAt(lines, pos + |out|, count) == [] <==> out == Rest(lines, pos)
  {
    hide ReadAt, From, Flatten;
    var out := Stream(lines, pos, counts);
    StreamIsContents(lines, pos, counts);
    ReadIsPrefix(lines, pos + |out|, count);
    assert Rest(lines, pos + |out|) == [] ==> out + Rest(lines, pos + |out|) == out;
  }

  // ---------- seeking ----------

  /** Where a seek to (command, offset) leads; nothing when it is refused. */
  function SeekTo(lines: seq<Bytes>, command: nat, offset: nat): Option<nat> {
    Position(Sizes(lines), command, offset)
  }

  lemma DropInto(before: Bytes, line: Bytes, after: Bytes, offset: nat)
    requires offset <= |line|
    ensures (before + line + after)[|before| + offset..] == line[offset..] + after
  {
  }

  /** A seek succeeds exactly for an existing byte, and reading then starts at that byte. */
  lemma SeekContents(lines: seq<Bytes>, command: nat, offset: nat)
    ensures var to := SeekTo(lines, command, offset);
            && (to.Some? <==> command < |lines| && offset < |lines[command]|)
            && (to.Some? ==> to.value < |Flatten(lines)|)
            && (to.Some? ==>
                 Rest(lines, to.value) == lines[command][offset..] + Flatten(lines[command + 1..]))
  {
    if SeekTo(lines, command, offset).Some? {
      hide Flatten;
      PrefixSumIsLength(lines, command);
      SplitAt(lines, command);
      DropInto(Flatten(lines[..command]), lines[command], Flatten(lines[command + 1..]), offset);
    }
  }
}
