/**
  Cutting a TCP byte stream into messages (tcp_connection_receive_message).  A connection is
  driven by what its successive one-byte `recv` calls deliver.
 */
module Framing {
  import opened ByteStrings
  import opened MachineInts

  /** What one `recv` of one byte delivers: a byte, the peer's close, or an error. */
  datatype Event = Data(b: byte) | Closed | Failed

  /**
    What one call of tcp_connection_receive_message comes to.  `Overflow` is the call whose
    buffer size no longer fits in an `int`; C leaves it undefined.
   */
  datatype Outcome = Message(text: Bytes) | Shut | Broken | Overflow

  const FIRST_CAPACITY := 1024

  /** A buffer of this size is full and cannot be doubled any more. */
  const OVERFLOW_LENGTH := 0x4000_0000

  datatype Received = Received(outcome: Outcome, later: seq<Event>)

  /** One call, with `text` already in the buffer. */
  function Receive(events: seq<Event>, delimiter: byte, text: Bytes): (r: Received)
    ensures |r.later| <= |events|
    ensures events != [] ==> |r.later| < |events|
    ensures events == [] ==> r.outcome == Shut
    decreases |events|
  {
    if events == [] then Received(Shut, [])
    else match events[0]
      case Closed => Received(Shut, events[1..])
      case Failed => Received(Broken, events[1..])
      case Data(b) =>
        if b == delimiter then Received(Message(text), events[1..])
        else if |text| + 1 == OVERFLOW_LENGTH then Received(Overflow, events[1..])
        else Receive(events[1..], delimiter, text + [b])
  }

  /** The messages of a connection, call after call until it is closed. */
  function Messages(events: seq<Event>, delimiter: byte): seq<Bytes>
    decreases |events|
  {
    if events == [] then []
    else
      var r := Receive(events, delimiter, []);
      match r.outcome
      case Message(text) => [text] + Messages(r.later, delimiter)
      case Broken => Messages(r.later, delimiter)
      case Shut => []
      case Overflow => []
  }

  /** Some call overflows its buffer size before the connection is closed. */
  predicate Overflows(events: seq<Event>, delimiter: byte)
    decreases |events|
  {
    events != [] &&
    var r := Receive(events, delimiter, []);
    r.outcome.Overflow? || (!r.outcome.Shut? && Overflows(r.later, delimiter))
  }

  // ---------- the reference: splitting a string at its delimiters ----------

  function IndexOf(s: Bytes, d: byte): (i: nat)
    ensures i <= |s| && d !in s[..i]
    ensures i < |s| <==> d in s
    ensures i < |s| ==> s[i] == d
  {
    if s == [] || s[0] == d then 0
    else
      var i := IndexOf(s[1..], d) + 1;
      assert s[..i] == [s[0]] + s[1..][..i - 1];
      i
  }

  function Segments(s: Bytes, d: byte): seq<Bytes>
    decreases |s|
  {
    var i := IndexOf(s, d);
    if i == |s| then [] else [s[..i]] + Segments(s[i + 1..], d)
  }

  function Tail(s: Bytes, d: byte): Bytes
    decreases |s|
  {
    var i := IndexOf(s, d);
    if i == |s| then s else Tail(s[i + 1..], d)
  }

  lemma IndexIs(s: Bytes, d: byte, i: nat)
    requires i < |s| && d !in s[..i] && s[i] == d
    ensures IndexOf(s, d) == i
  {
    assert s[i] in s;
    if IndexOf(s, d) != i {
      assert false;
    }
  }

  /** The first segment, the delimiter after it, and the rest, which is split in the same way. */
  lemma SplitHead(s: Bytes, d: byte)
    ensures var i := IndexOf(s, d);
            if i < |s| then
              && s == s[..i] + [d] + s[i + 1..]
              && Segments(s, d) == [s[..i]] + Segments(s[i + 1..], d)
              && Tail(s, d) == Tail(s[i + 1..], d)
            else
              Segments(s, d) == [] && Tail(s, d) == s && d !in s
  {
    hide IndexOf;
    var i := IndexOf(s, d);
    if i == |s| {
      assert s[..i] == s;
    } else {
      CutOut(s, i);
    }
  }

  lemma CutOut(s: Bytes, i: nat)
    requires i < |s|
    ensures s == s[..i] + [s[i]] + s[i + 1..]
  {
  }

  /** The segments, each followed by the delimiter. */
  function Join(parts: seq<Bytes>, d: byte): Bytes {
    if parts == [] then [] else parts[0] + [d] + Join(parts[1..], d)
  }

  lemma JoinCons(part: Bytes, parts: seq<Bytes>, d: byte, tail: Bytes)
    ensures Join([part] + parts, d) + tail == part + [d] + (Join(parts, d) + tail)
  {
    assert ([part] + parts)[1..] == parts;
  }

  /** Splitting loses nothing. */
  lemma {:induction false} SplitRebuilds(s: Bytes, d: byte)
    ensures Join(Segments(s, d), d) + Tail(s, d) == s
    decreases |s|
  {
    hide IndexOf, Segments, Tail;
    var i := IndexOf(s, d);
    SplitHead(s, d);
    if i < |s| {
      SplitRebuilds(s[i + 1..], d);
      hide Join;
      JoinCons(s[..i], Segments(s[i + 1..], d), d, Tail(s, d));
    }
  }

  ghost predicate DelimiterFree(parts: seq<Bytes>, d: byte) {
    forall i :: 0 <= i < |parts| ==> d !in parts[i]
  }

  /** And there is only one way to split: whatever a sender joins is what comes out. */
  lemma {:induction false} SplitOfJoin(parts: seq<Bytes>, tail: Bytes, d: byte)
    requires DelimiterFree(parts, d) && d !in tail
    ensures Segments(Join(parts, d) + tail, d) == parts
    ensures Tail(Join(parts, d) + tail, d) == tail
    decreases |parts|
  {
    hide IndexOf, Segments, Tail;
    var s := Join(parts, d) + tail;
    SplitHead(s, d);
    if parts == [] {
      assert s == tail;
    } else {
      hide Join;
      var part, rest := parts[0], Join(parts[1..], d) + tail;
      assert parts == [part] + parts[1..];
      JoinCons(part, parts[1..], d, tail);
      assert s[..|part|] == part;
      IndexIs(s, d, |part|);
      assert s[|part| + 1..] == rest;
      SplitOfJoin(parts[1..], tail, d);
    }
  }

  lemma {:induction false} SegmentsAreDelimiterFree(s: Bytes, d: byte)
    ensures DelimiterFree(Segments(s, d), d) && d !in Tail(s, d)
    decreases |s|
  {
    hide IndexOf, Segments, Tail;
    var i := IndexOf(s, d);
    SplitHead(s, d);
    if i < |s| {
      SegmentsAreDelimiterFree(s[i + 1..], d);
    }
  }

  // ---------- the receiver meets the reference ----------

  function AsEvents(s: Bytes): (events: seq<Event>)
    ensures |events| == |s|
    ensures forall i :: 0 <= i < |s| ==> events[i] == Data(s[i])
  {
    seq(|s|, i requires 0 <= i < |s| => Data(s[i]))
  }

  /** No line of the stream is long enough to overflow the receive buffer. */
  ghost predicate ShortLines(s: Bytes, d: byte) {
    (forall i :: 0 <= i < |Segments(s, d)| ==> |Segments(s, d)[i]| < 0x4000_0000) && |Tail(s, d)| < 0x4000_0000
  }

  lemma ShiftByOne(text: Bytes, s: Bytes, i: nat)
    requires 0 < i <= |s|
    ensures text + [s[0]] + s[1..][..i - 1] == text + s[..i]
    ensures i < |s| ==> s[1..][i..] == s[i + 1..]
    ensures i == |s| ==> text + [s[0]] + s[1..] == text + s
  {
  }

  /** A line of fewer than 2^30 bytes without the delimiter is received as it was sent. */
  lemma ShortLineIsReceived(line: Bytes, later: seq<Event>, d: byte)
    requires d !in line && |line| < 0x4000_0000
    ensures Receive(AsEvents(line) + [Data(d)] + later, d, []) == Received(Message(line), later)
  {
    var s := line + [d];
    assert s[..|line|] == line;
    IndexIs(s, d, |line|);
    assert AsEvents(s) == AsEvents(line) + [Data(d)];
    assert AsEvents(s[|line| + 1..]) + later == later;
    ReceiveFromStart(s, later, d);
  }

  /** A call reads up to the first delimiter, or all the bytes before the next other event. */
  lemma {:induction false} ReceiveOneLine(s: Bytes, later: seq<Event>, d: byte, text: Bytes)
    requires |text| + IndexOf(s, d) < 0x4000_0000
    ensures var i, r := IndexOf(s, d), Receive(AsEvents(s) + later, d, text);
            if i < |s| then r == Received(Message(text + s[..i]), AsEvents(s[i + 1..]) + later)
            else r == Receive(later, d, text + s)
    decreases |s|
  {
    var i, events := IndexOf(s, d), AsEvents(s) + later;
    if s == [] {
      assert events == later && text + s == text;
    } else {
      assert events[0] == Data(s[0]) && events[1..] == AsEvents(s[1..]) + later;
      if s[0] == d {
        assert text + s[..0] == text;
      } else {
        var more := text + [s[0]];
        assert IndexOf(s[1..], d) == i - 1;
        assert Receive(events, d, text) == Receive(AsEvents(s[1..]) + later, d, more);
        hide Receive, IndexOf;
        ReceiveOneLine(s[1..], later, d, more);
        ShiftByOne(text, s, i);
      }
    }
  }

  /**
    A stream that ends in a clean close: the messages are exactly the segments, in order,
    and only the unterminated tail is dropped.
   */
  lemma CleanStream(s: Bytes, d: byte)
    requires ShortLines(s, d)
    ensures Messages(AsEvents(s), d) == Segments(s, d)
    ensures Join(Messages(AsEvents(s), d), d) + Tail(s, d) == s
  {
    StreamUpTo(s, [], d);
    assert AsEvents(s) + [] == AsEvents(s);
    assert Segments(s, d) + [] == Segments(s, d);
    SplitRebuilds(s, d);
  }

  /**
    A `recv` error drops the bytes of the unfinished line and nothing else; the connection
    goes on with what follows.
   */
  lemma StreamWithError(s: Bytes, later: seq<Event>, d: byte)
    requires ShortLines(s, d)
    ensures Messages(AsEvents(s) + [Failed] + later, d) == Segments(s, d) + Messages(later, d)
  {
    assert AsEvents(s) + [Failed] + later == AsEvents(s) + ([Failed] + later);
    StreamUpTo(s, [Failed] + later, d);
  }

  /** The messages of a run of bytes followed by the close or an error. */
  lemma {:induction false} StreamUpTo(s: Bytes, later: seq<Event>, d: byte)
    requires ShortLines(s, d)
    requires later == [] || !later[0].Data?
    ensures Messages(AsEvents(s) + later, d) == Segments(s, d) + Messages(later, d)
    ensures Overflows(AsEvents(s) + later, d) <==> Overflows(later, d)
    decreases |s|
  {
    hide IndexOf, Segments, Tail, Receive, Messages, Overflows;
    var i, events := IndexOf(s, d), AsEvents(s) + later;
    SplitHead(s, d);
    ShortLinesHead(s, d);
    hide ShortLines;
    ReceiveFromStart(s, later, d);
    if i == |s| {
      MessagesAfterTail(events, later, d, s);
      assert [] + Messages(later, d) == Messages(later, d);
    } else {
      var rest := s[i + 1..];
      StreamUpTo(rest, later, d);
      MessagesStep(events, d, s[..i], AsEvents(rest) + later);
      hide AsEvents;
      OneFirst(s[..i], Segments(rest, d), Messages(later, d));
    }
  }

  lemma OneFirst<T>(x: T, a: seq<T>, b: seq<T>)
    ensures [x] + a + b == [x] + (a + b)
  {
  }

  lemma ReceiveFromStart(s: Bytes, later: seq<Event>, d: byte)
    requires IndexOf(s, d) < 0x4000_0000
    ensures var i, r := IndexOf(s, d), Receive(AsEvents(s) + later, d, []);
            if i < |s| then r == Received(Message(s[..i]), AsEvents(s[i + 1..]) + later)
            else r == Receive(later, d, s)
  {
    hide IndexOf, Receive, AsEvents;
    ReceiveOneLine(s, later, d, []);
    assert [] + s == s && [] + s[..IndexOf(s, d)] == s[..IndexOf(s, d)];
  }

  lemma ShortLinesHead(s: Bytes, d: byte)
    requires ShortLines(s, d)
    ensures var i := IndexOf(s, d); i < 0x4000_0000 && (i < |s| ==> ShortLines(s[i + 1..], d))
  {
    hide IndexOf, Segments, Tail;
    var i := IndexOf(s, d);
    SplitHead(s, d);
    if i < |s| {
      assert Segments(s, d)[0] == s[..i];
      var later := Segments(s[i + 1..], d);
      assert forall k :: 0 <= k < |later| ==> later[k] == Segments(s, d)[k + 1];
    }
  }

  lemma MessagesAfterTail(events: seq<Event>, later: seq<Event>, d: byte, tail: Bytes)
    requires later == [] || !later[0].Data?
    requires Receive(events, d, []) == Receive(later, d, tail)
    ensures Messages(events, d) == Messages(later, d)
    ensures Overflows(events, d) <==> Overflows(later, d)
  {
  }

  lemma MessagesStep(events: seq<Event>, d: byte, text: Bytes, later: seq<Event>)
    requires Receive(events, d, []) == Received(Message(text), later)
    ensures Messages(events, d) == [text] + Messages(later, d)
    ensures Overflows(events, d) <==> Overflows(later, d)
  {
  }

  // ---------- streams with errors ----------

  /** How many bytes arrive before the next close or error, or at all. */
  function DataCount(events: seq<Event>): (n: nat)
    ensures n <= |events|
    ensures forall i :: 0 <= i < n ==> events[i].Data?
    ensures n < |events| ==> !events[n].Data?
  {
    if events == [] || !events[0].Data? then 0 else DataCount(events[1..]) + 1
  }

  function BytesOf(events: seq<Event>): (s: Bytes)
    requires forall i :: 0 <= i < |events| ==> events[i].Data?
    ensures |s| == |events| && forall i :: 0 <= i < |s| ==> s[i] == events[i].b
  {
    seq(|events|, i requires 0 <= i < |events| => events[i].b)
  }

  /** The bytes of each run between errors. */
  function FirstRun(events: seq<Event>): Bytes {
    BytesOf(events[..DataCount(events)])
  }

  /** What follows the error that ends the first run; nothing after a close. */
  function AfterRun(events: seq<Event>): (later: seq<Event>)
    ensures events != [] ==> |later| < |events|
  {
    var n := DataCount(events);
    if n < |events| && events[n].Failed? then events[n + 1..] else []
  }

  /**
    The reference for any connection: split the bytes of each run between errors; what is
    left of a run when an error or the close comes is dropped.
   */
  function Lines(events: seq<Event>, d: byte): seq<Bytes>
    decreases |events|
  {
    if events == [] then [] else Segments(FirstRun(events), d) + Lines(AfterRun(events), d)
  }

  ghost predicate ShortRuns(events: seq<Event>, d: byte)
    decreases |events|
  {
    events == [] || (ShortLines(FirstRun(events), d) && ShortRuns(AfterRun(events), d))
  }

  /** Whatever a connection delivers, its messages are the lines of its runs, in order. */
  lemma {:induction false} MessagesAreLines(events: seq<Event>, d: byte)
    requires ShortRuns(events, d)
    ensures Messages(events, d) == Lines(events, d)
    ensures !Overflows(events, d)
    decreases |events|
  {
    if events != [] {
      var s, n := FirstRun(events), DataCount(events);
      var later := events[n..];
      assert events == AsEvents(s) + later;
      hide DataCount, Segments, ShortLines;
      StreamUpTo(s, later, d);
      MessagesAreLines(AfterRun(events), d);
      if later != [] {
        assert later[1..] == events[n + 1..];
      }
    }
  }

  /** No message contains the delimiter. */
  lemma {:induction false} LinesAreDelimiterFree(events: seq<Event>, d: byte)
    ensures DelimiterFree(Lines(events, d), d)
    decreases |events|
  {
    if events != [] {
      SegmentsAreDelimiterFree(FirstRun(events), d);
      LinesAreDelimiterFree(AfterRun(events), d);
    }
  }

  ghost predicate NoDelimiterIn(events: seq<Event>, n: nat, d: byte)
    requires n <= |events|
  {
    forall i :: 0 <= i < n ==> events[i].Data? && events[i].b != d
  }

  /** The buffer size overflows exactly when 2^30 bytes arrive without a delimiter. */
  lemma {:induction false} OverflowIff(events: seq<Event>, d: byte, text: Bytes)
    requires |text| < 0x4000_0000
    ensures var n := 0x4000_0000 - |text|;
            Receive(events, d, text).outcome == Overflow <==> n <= |events| && NoDelimiterIn(events, n, d)
    decreases |events|
  {
    var n := 0x4000_0000 - |text|;
    if events != [] && events[0].Data? && events[0].b != d && |text| + 1 < OVERFLOW_LENGTH {
      OverflowIff(events[1..], d, text + [events[0].b]);
      if n <= |events| {
        assert NoDelimiterIn(events, n, d) <==> NoDelimiterIn(events[1..], n - 1, d) by {
          assert forall i :: 0 <= i < n - 1 ==> events[1..][i] == events[i + 1];
          if NoDelimiterIn(events[1..], n - 1, d) {
            forall i | 0 <= i < n
              ensures events[i].Data? && events[i].b != d
            {
              assert i > 0 ==> events[i] == events[1..][i - 1];
            }
          }
        }
      }
    }
  }

  // ---------- the receive loop ----------

  ghost predicate IsCapacity(c: nat) {
    exists k: nat :: c == 1024 * Power(k)
  }

  function Power(k: nat): nat {
    if k == 0 then 1 else 2 * Power(k - 1)
  }

  class Connection {
    var isOpen: bool
    /** What later `recv` calls will deliver; after the last event the peer has closed. */
    var incoming: seq<Event>

    constructor (incoming: seq<Event>)
      ensures isOpen && this.incoming == incoming
    {
      isOpen, this.incoming := true, incoming;
    }

    method Recv() returns (e: Event)
      modifies this`incoming
      ensures old(incoming) == [] ==> e == Closed && incoming == []
      ensures old(incoming) != [] ==> old(incoming) == [e] + incoming
    {
      if incoming == [] {
        e := Closed;
      } else {
        e, incoming := incoming[0], incoming[1..];
      }
    }

    /**
      tcp_connection_receive_message: bytes go one by one into a buffer that doubles when it
      is full.  `copied` counts the bytes that the reallocations copy.
     */
    method ReceiveMessage(delimiter: byte) returns (outcome: Outcome, ghost capacity: nat, ghost copied: nat)
      modifies this
      ensures Received(outcome, incoming) == Receive(old(incoming), delimiter, [])
      ensures isOpen == (old(isOpen) && outcome != Shut)
      ensures IsCapacity(capacity) && copied == capacity - 1024
      ensures capacity <= INT_MAX && (outcome == Overflow ==> 2 * capacity > INT_MAX)
      ensures var bytes := |old(incoming)| - |incoming|;
              capacity == 1024 || (capacity <= 2 * bytes && copied < 2 * bytes)
      ensures outcome.Message? ==> |outcome.text| < capacity
    {
      ghost var all := incoming;
      var bufferSize := FIRST_CAPACITY;
      var buffer := new byte[bufferSize];
      var currentSize := 0;
      copied := 0;
      assert FIRST_CAPACITY == FIRST_CAPACITY * Power(0);
      while true
        invariant fresh(buffer) && buffer.Length == bufferSize
        invariant currentSize < bufferSize <= OVERFLOW_LENGTH
        invariant IsCapacity(bufferSize) && copied == bufferSize - FIRST_CAPACITY
        invariant currentSize == |all| - |incoming|
        invariant bufferSize == FIRST_CAPACITY || bufferSize <= 2 * currentSize
        invariant Receive(all, delimiter, []) == Receive(incoming, delimiter, buffer[..currentSize])
        invariant isOpen == old(isOpen)
        decreases |incoming|
      {
        ghost var text, before := buffer[..currentSize], incoming;
        var e := Recv();
        assert before != [] ==> before[0] == e && before[1..] == incoming;
        capacity := bufferSize;
        match e {
          case Closed =>
            isOpen := false;
            return Shut, capacity, copied;
          case Failed =>
            return Broken, capacity, copied;
          case Data(b) =>
            buffer[currentSize] := b;
            if buffer[currentSize] == delimiter {
              buffer[currentSize] := NUL;
              outcome := Message(buffer[..currentSize]);
              assert buffer[..currentSize] == text;
              return outcome, capacity, copied;
            }
            currentSize := currentSize + 1;
            ghost var line := text + [b];
            assert buffer[..currentSize] == line;
            assert currentSize < OVERFLOW_LENGTH ==>
                Receive(before, delimiter, text) == Receive(incoming, delimiter, line);
            if currentSize == bufferSize {
              if bufferSize > INT_MAX / 2 {
                return Overflow, capacity, copied;
              }
              CapacityDoubles(bufferSize);
              bufferSize := bufferSize * 2;
              var larger := new byte[bufferSize];
              assert buffer[..currentSize] == line;
              forall i | 0 <= i < currentSize {
                larger[i] := buffer[i];
              }
              assert larger[..currentSize] == line;
              copied := copied + currentSize;
              buffer := larger;
            }
        }
      }
    }
  }

  /**
    The loop around the receive calls: until the peer closes, every call either yields a
    message or, after an error, nothing.
   */
  method ReceiveAll(connection: Connection, delimiter: byte) returns (messages: seq<Bytes>, overflow: bool)
    requires connection.isOpen
    modifies connection
    ensures messages == Messages(old(connection.incoming), delimiter)
    ensures overflow <==> Overflows(old(connection.incoming), delimiter)
    ensures overflow || !connection.isOpen
  {
    ghost var all := connection.incoming;
    messages, overflow := [], false;
    while connection.isOpen && !overflow
      invariant connection.isOpen && !overflow ==>
                  && messages + Messages(connection.incoming, delimiter) == Messages(all, delimiter)
                  && (Overflows(connection.incoming, delimiter) <==> Overflows(all, delimiter))
      invariant !connection.isOpen || overflow ==>
                  messages == Messages(all, delimiter) && (overflow <==> Overflows(all, delimiter))
      decreases connection.isOpen, !overflow, |connection.incoming|
    {
      ghost var before := connection.incoming;
      var outcome;
      ghost var capacity, copied;
      outcome, capacity, copied := connection.ReceiveMessage(delimiter);
      NextMessages(messages, before, delimiter);
      match outcome
      case Message(text) =>
        messages := messages + [text];
      case Broken =>
      case Shut =>
      case Overflow =>
        overflow := true;
    }
  }

  lemma NextMessages(seen: seq<Bytes>, events: seq<Event>, d: byte)
    ensures var r := Receive(events, d, []);
            match r.outcome
            case Message(text) =>
              && seen + Messages(events, d) == seen + [text] + Messages(r.later, d)
              && (Overflows(events, d) <==> Overflows(r.later, d))
            case Broken =>
              Messages(events, d) == Messages(r.later, d) && (Overflows(events, d) <==> Overflows(r.later, d))
            case Shut =>
              seen + Messages(events, d) == seen && !Overflows(events, d)
            case Overflow =>
              seen + Messages(events, d) == seen && Overflows(events, d)
  {
    hide Receive;
    var r := Receive(events, d, []);
    if r.outcome.Message? {
      var later := Messages(r.later, d);
      assert seen + ([r.outcome.text] + later) == seen + [r.outcome.text] + later;
    }
  }

  lemma CapacityDoubles(c: nat)
    requires IsCapacity(c)
    ensures IsCapacity(2 * c)
    ensures c < OVERFLOW_LENGTH ==> 2 * c <= OVERFLOW_LENGTH
  {
    var k: nat :| c == FIRST_CAPACITY * Power(k);
    assert 2 * c == FIRST_CAPACITY * Power(k + 1);
    PowerSteps(k);
  }

  /** The capacities below 2^30 are exactly 2^10 to 2^29, so doubling never jumps past 2^30. */
  lemma PowerSteps(k: nat)
    ensures FIRST_CAPACITY * Power(k) < OVERFLOW_LENGTH ==> 2 * FIRST_CAPACITY * Power(k) <= OVERFLOW_LENGTH
  {
    PowerTwenty();
    if k >= 20 {
      PowerMonotone(20, k);
    } else {
      PowerMonotone(k + 1, 20);
    }
  }

  lemma PowerTwenty()
    ensures Power(20) == 0x10_0000
  {
    assert Power(2) == 4;
    assert Power(4) == 16;
    assert Power(6) == 0x40;
    assert Power(8) == 0x100;
    assert Power(10) == 0x400;
    assert Power(12) == 0x1000;
    assert Power(14) == 0x4000;
    assert Power(16) == 0x1_0000;
    assert Power(18) == 0x4_0000;
  }

  lemma {:induction false} PowerMonotone(j: nat, k: nat)
    requires j <= k
    ensures Power(j) <= Power(k)
  {
    if j < k {
      PowerMonotone(j, k - 1);
    }
  }
}
