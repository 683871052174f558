/**
  The line server (connection_manager.c): any number of client threads, one device, one
  mutex.  The atomic steps are single device calls; between them any other thread may move.
  The main results say that every such run is explained by handling the messages one at a
  time, in the order in which the mutex was taken.
 */
module Protocol {
  import opened ByteStrings
  import opened CircularBuffers
  import opened DeviceSpec
  import opened SeekCommand
  import opened Framing

  /** The buffer of tcp_connection_send_file. */
  const SEND_BUFFER := 4096

  // ---------- one message, handled atomically ----------

  /** What `%s` and `strncmp` see of a message: everything before the first NUL. */
  function CString(message: Bytes): Bytes {
    message[..IndexOf(message, NUL)]
  }

  /** What the server writes for a plain message. */
  function Payload(message: Bytes): Bytes {
    CString(message) + [NEWLINE]
  }

  /** The text up to the first NUL (byte 0) is written, and a newline (byte 10); without a NUL, all of it. */
  lemma PayloadIs(a: Bytes, b: Bytes)
    requires 0 !in a
    ensures Payload(a) == a + [10] && Payload(a + [0] + b) == a + [10]
  {
    assert a[..|a|] == a;
    var message := a + [0] + b;
    assert message[..|a|] == a;
    IndexIs(message, NUL, |a|);
  }

  /**
    What the device gets of a plain message when `n` bytes are written.  A write that fails
    ends the message: the bytes that stdio could not write are discarded with the error.
   */
  function Written(message: Bytes, n: nat): Bytes {
    if n < |Payload(message)| then Payload(message)[..n] else Payload(message)
  }

  datatype Handled = Handled(dev: Dev, reply: Bytes)

  /** The device afterwards and the complete reply, when `n` bytes of a plain message are written. */
  function Handle(dev: Dev, message: Bytes, n: nat): Handled {
    match Decode(CString(message))
    case None =>
      var after := Accept(dev, Written(message, n));
      Handled(after, Flatten(after.lines))
    case Some(seek) =>
      match SeekTo(dev.lines, seek.command, seek.offset)
      case None => Handled(dev, [])
      case Some(pos) => Handled(dev, Rest(dev.lines, pos))
  }

  // ---------- the concurrent server ----------

  /** Where a thread is in its loop, with the message it is working on. */
  datatype Phase =
    | Idle
    | Waiting(message: Bytes)                           // device opened, mutex wanted
    | Writing(message: Bytes, todo: Bytes)              // stdio has `todo` still to write
    | Seeking(message: Bytes, seek: Seek)
    // `written`: how much of a plain message the device took; `sent`: the reply so far;
    // `pos`: the file position; `cut`: the reply is not complete
    | Sending(message: Bytes, written: nat, pos: nat, sent: Bytes)
    | Finished(message: Bytes, written: nat, sent: Bytes, cut: bool)
  {
    predicate HoldsMutex() {
      Writing? || Seeking? || Sending? || Finished?
    }

    function InWork(): seq<Bytes> {
      if Idle? then [] else [message]
    }
  }

  /** `inbox`: the messages that the thread's connection has yet to deliver. */
  datatype Thread = Thread(inbox: seq<Bytes>, phase: Phase)

  /** A message that is done with: served, or dropped because the device would not open. */
  datatype LogEntry =
    | Served(thread: nat, message: Bytes, written: nat, reply: Bytes, cut: bool)
    | Dropped(thread: nat, message: Bytes)

  datatype State = State(dev: Dev, mutex: Option<nat>, threads: seq<Thread>, log: seq<LogEntry>)

  datatype Action =
    | Receive(t: nat)
    | OpenFails(t: nat)
    | Lock(t: nat)
    | WriteSome(t: nat, n: nat)   // one device write, of a size that stdio chooses
    | WriteFails(t: nat, noticed: bool)  // the result of the last flush is ignored, others count
    | DoSeek(t: nat)
    | SeekFails(t: nat)           // the device cannot read the ioctl argument
    | ReadSome(t: nat)            // one device read and the send of what it returned
    | ReplyFails(t: nat)          // the same, but the read or the send fails
    | Unlock(t: nat)
  {
    predicate Fails() {
      OpenFails? || WriteFails? || SeekFails? || ReplyFails?
    }
  }

  predicate Enabled(s: State, a: Action) {
    && a.t < |s.threads|
    && var phase := s.threads[a.t].phase;
       match a
       case Receive(t) => phase.Idle? && s.threads[t].inbox != []
       case OpenFails(t) => phase.Waiting?
       case Lock(t) => phase.Waiting? && s.mutex == None
       case WriteSome(t, n) => phase.Writing? && 0 < n <= |phase.todo|
       case WriteFails(t, noticed) => phase.Writing?
       case DoSeek(t) => phase.Seeking?
       case SeekFails(t) => phase.Seeking?
       case ReadSome(t) => phase.Sending?
       case ReplyFails(t) => phase.Sending? && ReadAt(s.dev.lines, phase.pos, SEND_BUFFER) != []
       case Unlock(t) => phase.Finished?
  }

  function SetPhase(s: State, t: nat, phase: Phase): State
    requires t < |s.threads|
  {
    s.(threads := s.threads[t := s.threads[t].(phase := phase)])
  }

  /** How much of a message is written when `todo` is what is left of it. */
  function WrittenSoFar(message: Bytes, todo: Bytes): nat {
    if |todo| <= |Payload(message)| then |Payload(message)| - |todo| else 0
  }

  function Step(s: State, a: Action): State
    requires Enabled(s, a)
  {
    var thread := s.threads[a.t];
    var phase := thread.phase;
    match a
    case Receive(t) =>
      s.(threads := s.threads[t := Thread(thread.inbox[1..], Waiting(thread.inbox[0]))])
    case OpenFails(t) =>
      SetPhase(s, t, Idle).(log := s.log + [Dropped(t, phase.message)])
    case Lock(t) =>
      var next := match Decode(CString(phase.message))
                  case None => Writing(phase.message, Payload(phase.message))
                  case Some(seek) => Seeking(phase.message, seek);
      SetPhase(s, t, next).(mutex := Some(t))
    case WriteSome(t, n) =>
      var next := if n == |phase.todo| then Sending(phase.message, |Payload(phase.message)|, 0, [])
                  else Writing(phase.message, phase.todo[n..]);
      SetPhase(s, t, next).(dev := Accept(s.dev, phase.todo[..n]))
    case WriteFails(t, noticed) =>
      var done := WrittenSoFar(phase.message, phase.todo);
      SetPhase(s, t, if noticed then Finished(phase.message, done, [], true) else Sending(phase.message, done, 0, []))
    case DoSeek(t) =>
      var next := match SeekTo(s.dev.lines, phase.seek.command, phase.seek.offset)
                  case None => Finished(phase.message, 0, [], false)
                  case Some(pos) => Sending(phase.message, 0, pos, []);
      SetPhase(s, t, next)
    case SeekFails(t) =>
      SetPhase(s, t, Finished(phase.message, 0, [], true))
    case ReadSome(t) =>
      var data := ReadAt(s.dev.lines, phase.pos, SEND_BUFFER);
      var next := if data == [] then Finished(phase.message, phase.written, phase.sent, false)
                  else Sending(phase.message, phase.written, phase.pos + |data|, phase.sent + data);
      SetPhase(s, t, next)
    case ReplyFails(t) =>
      SetPhase(s, t, Finished(phase.message, phase.written, phase.sent, true))
    case Unlock(t) =>
      var entry := Served(t, phase.message, phase.written, phase.sent, phase.cut);
      SetPhase(s, t, Idle).(mutex := None, log := s.log + [entry])
  }

  /** The server starts with every thread idle and nothing staged; the device may hold lines. */
  predicate Starting(s: State) {
    && s.mutex == None && s.log == []
    && s.dev.staging == [] && |s.dev.lines| <= 10
    && forall t :: 0 <= t < |s.threads| ==> s.threads[t].phase == Idle
  }

  /** And messages are what is left of a stream when it is cut at its newlines. */
  predicate Initial(s: State) {
    && Starting(s)
    && forall t :: 0 <= t < |s.threads| ==>
         forall i :: 0 <= i < |s.threads[t].inbox| ==> NEWLINE !in s.threads[t].inbox[i]
  }

  /** Any number of connections with any messages may be there, and up to ten lines in the device. */
  lemma MayStart(lines: seq<Bytes>, inboxes: seq<seq<Bytes>>)
    requires |lines| <= 10
    ensures var threads := seq(|inboxes|, t requires 0 <= t < |inboxes| => Thread(inboxes[t], Idle));
            var s := State(Dev(lines, []), None, threads, []);
            && Starting(s)
            && (Initial(s) <==> forall t, i :: 0 <= t < |inboxes| && 0 <= i < |inboxes[t]| ==> 10 !in inboxes[t][i])
  {
    var threads := seq(|inboxes|, t requires 0 <= t < |inboxes| => Thread(inboxes[t], Idle));
    assert forall t :: 0 <= t < |inboxes| ==> threads[t].inbox == inboxes[t];
  }

  predicate CanRun(s: State, actions: seq<Action>)
    decreases |actions|
  {
    actions == [] || (Enabled(s, actions[0]) && CanRun(Step(s, actions[0]), actions[1..]))
  }

  function Run(s: State, actions: seq<Action>): State
    requires CanRun(s, actions)
    decreases |actions|
  {
    if actions == [] then s else Run(Step(s, actions[0]), actions[1..])
  }

  // ---------- the atomic explanation ----------

  /** The device after handling the served messages of a log one by one. */
  function SerialDev(dev: Dev, log: seq<LogEntry>): Dev {
    if log == [] then dev
    else
      var before, last := SerialDev(dev, log[..|log| - 1]), log[|log| - 1];
      if last.Served? then Handle(before, last.message, last.written).dev else before
  }

  /** A reply is complete, or cut off where a write, a seek, a read or a send failed. */
  predicate Replies(sent: Bytes, cut: bool, full: Bytes) {
    if cut then sent <= full else sent == full
  }

  /** Every reply is the one that its message gets when all earlier messages are done with. */
  ghost predicate Explained(dev: Dev, log: seq<LogEntry>) {
    forall k :: 0 <= k < |log| && log[k].Served? ==>
      Replies(log[k].reply, log[k].cut, Handle(SerialDev(dev, log[..k]), log[k].message, log[k].written).reply)
  }

  /** The messages of one thread in a log. */
  function MessagesOf(log: seq<LogEntry>, t: nat): seq<Bytes> {
    if log == [] then []
    else
      var before, last := MessagesOf(log[..|log| - 1], t), log[|log| - 1];
      if last.thread == t then before + [last.message] else before
  }

  // ---------- the invariant ----------

  /** How far the thread that holds the mutex is, relative to the device before its message. */
  ghost predicate Progress(dev: Dev, before: Dev, phase: Phase) {
    && !EndsInNewline(before.staging)
    && match phase
       case Writing(m, todo) =>
         && Decode(CString(m)) == None && NEWLINE !in m
         && todo != [] && |todo| <= |Payload(m)| && todo == Payload(m)[WrittenSoFar(m, todo)..]
         && dev == Dev(before.lines, before.staging + Written(m, WrittenSoFar(m, todo)))
       case Seeking(m, seek) =>
         Decode(CString(m)) == Some(seek) && dev == before
       case Sending(m, written, pos, sent) =>
         var h := Handle(before, m, written);
         dev == h.dev && sent + Rest(h.dev.lines, pos) == h.reply
       case Finished(m, written, sent, cut) =>
         var h := Handle(before, m, written);
         dev == h.dev && Replies(sent, cut, h.reply)
       case _ => false
  }

  /** The mutex is free and nothing is half done, or exactly its holder is at work. */
  ghost predicate Exclusion(s: State, before: Dev) {
    && !EndsInNewline(before.staging)
    && match s.mutex
       case None =>
         && s.dev == before
         && forall t :: 0 <= t < |s.threads| ==> !s.threads[t].phase.HoldsMutex()
       case Some(holder) =>
         && holder < |s.threads|
         && Progress(s.dev, before, s.threads[holder].phase)
         && forall t :: 0 <= t < |s.threads| && t != holder ==> !s.threads[t].phase.HoldsMutex()
  }

  ghost predicate NewlineFree(thread: Thread) {
    && (forall i :: 0 <= i < |thread.inbox| ==> NEWLINE !in thread.inbox[i])
    && (!thread.phase.Idle? ==> NEWLINE !in thread.phase.message)
  }

  /** Each thread has dealt with its messages in the order in which they arrived. */
  ghost predicate InOrder(s0: State, s: State) {
    && |s.threads| == |s0.threads|
    && forall t :: 0 <= t < |s.threads| ==>
         MessagesOf(s.log, t) + s.threads[t].phase.InWork() + s.threads[t].inbox == s0.threads[t].inbox
  }

  ghost predicate Inv(s0: State, s: State) {
    && Exclusion(s, SerialDev(s0.dev, s.log))
    && Explained(s0.dev, s.log)
    && InOrder(s0, s)
    && forall t :: 0 <= t < |s.threads| ==> NewlineFree(s.threads[t])
  }

  // ---------- every step keeps the invariant ----------

  lemma PayloadShape(message: Bytes)
    requires NEWLINE !in message
    ensures NEWLINE !in CString(message)
    ensures EndsInNewline(Payload(message))
    ensures forall n: nat :: n < |Payload(message)| ==> NEWLINE !in Payload(message)[..n]
  {
    forall n: nat | n < |Payload(message)|
      ensures NEWLINE !in Payload(message)[..n]
    {
      assert forall i :: 0 <= i < n ==> Payload(message)[..n][i] == CString(message)[i];
    }
  }

  /** Less than the whole message is staged; the whole message completes a line. */
  lemma AcceptWritten(before: Dev, message: Bytes, n: nat)
    requires NEWLINE !in message && !EndsInNewline(before.staging)
    ensures Accept(before, Written(message, n)) ==
            if n < |Payload(message)| then Dev(before.lines, before.staging + Payload(message)[..n])
            else Dev(Push(before.lines, before.staging + Payload(message)), [])
  {
    PayloadShape(message);
    hide CString, Push;
    var staged := before.staging + Written(message, n);
    if n < |Payload(message)| {
      assert n > 0 ==> staged[|staged| - 1] == Payload(message)[..n][n - 1];
      assert n == 0 ==> staged == before.staging;
    }
  }

  lemma OneStepOn(staged: Bytes, payload: Bytes, done: nat, n: nat)
    requires done + n <= |payload|
    ensures staged + payload[..done] + payload[done..][..n] == staged + payload[..done + n]
    ensures payload[done..][n..] == payload[done + n..]
    ensures payload[..|payload|] == payload
  {
    assert payload[..done] + payload[done..][..n] == payload[..done + n];
  }

  lemma AcceptSameBytes(a: Dev, x: Bytes, b: Dev, y: Bytes)
    requires a.lines == b.lines && a.staging + x == b.staging + y
    ensures Accept(a, x) == Accept(b, y)
  {
  }

  /** Writing `n` more bytes of a message makes it a message of which `n` more are written. */
  lemma WriteMore(dev: Dev, before: Dev, message: Bytes, todo: Bytes, n: nat)
    requires Progress(dev, before, Writing(message, todo)) && 0 < n <= |todo|
    ensures Accept(dev, todo[..n]) == Accept(before, Written(message, WrittenSoFar(message, todo) + n))
  {
    hide Decode, Push, CString, Payload, Accept;
    var done, payload := WrittenSoFar(message, todo), Payload(message);
    OneStepOn(before.staging, payload, done, n);
    AcceptSameBytes(dev, todo[..n], before, Written(message, done + n));
  }

  /** A device write takes the writer one step further, and the last one commits the message. */
  lemma WriteProgress(dev: Dev, before: Dev, message: Bytes, todo: Bytes, n: nat)
    requires Progress(dev, before, Writing(message, todo)) && 0 < n <= |todo|
    ensures Progress(Accept(dev, todo[..n]), before,
                     if n == |todo| then Sending(message, |Payload(message)|, 0, []) else Writing(message, todo[n..]))
  {
    if n == |todo| {
      LastWrite(dev, before, message, todo);
    } else {
      EarlierWrite(dev, before, message, todo, n);
    }
  }

  lemma LastWrite(dev: Dev, before: Dev, message: Bytes, todo: Bytes)
    requires Progress(dev, before, Writing(message, todo))
    ensures Progress(Accept(dev, todo[..|todo|]), before, Sending(message, |Payload(message)|, 0, []))
  {
    WriteMore(dev, before, message, todo, |todo|);
    hide Accept, CString, Payload, Decode, Flatten;
    WholeFile(Accept(before, Payload(message)).lines);
  }

  lemma EarlierWrite(dev: Dev, before: Dev, message: Bytes, todo: Bytes, n: nat)
    requires Progress(dev, before, Writing(message, todo)) && 0 < n < |todo|
    ensures Progress(Accept(dev, todo[..n]), before, Writing(message, todo[n..]))
  {
    WriteMore(dev, before, message, todo, n);
    hide Accept, CString, Payload, Decode;
    var done := WrittenSoFar(message, todo);
    AcceptWritten(before, message, done + n);
    OneStepOn([], Payload(message), done, n);
    assert WrittenSoFar(message, todo[n..]) == done + n;
    assert Written(message, done + n) == Payload(message)[..done + n];
    hide Written, WrittenSoFar;
  }

  lemma WholeFile(lines: seq<Bytes>)
    ensures Rest(lines, 0) == Flatten(lines)
    ensures [] + Rest(lines, 0) == Flatten(lines)
  {
    hide Flatten;
  }

  /** A failed write ends the message where it is: the rest is not written any more. */
  lemma WriteFailure(dev: Dev, before: Dev, message: Bytes, todo: Bytes)
    requires Progress(dev, before, Writing(message, todo))
    ensures Progress(dev, before, Finished(message, WrittenSoFar(message, todo), [], true))
    ensures Progress(dev, before, Sending(message, WrittenSoFar(message, todo), 0, []))
  {
    hide Decode, Flatten, Push, CString;
    var done := WrittenSoFar(message, todo);
    AcceptWritten(before, message, done);
    WholeFile(before.lines);
  }

  /** A seek either starts a reply or ends the work on the message. */
  lemma SeekProgress(dev: Dev, before: Dev, message: Bytes, seek: Seek)
    requires Progress(dev, before, Seeking(message, seek))
    ensures Progress(dev, before,
                     match SeekTo(dev.lines, seek.command, seek.offset)
                     case None => Finished(message, 0, [], false)
                     case Some(pos) => Sending(message, 0, pos, []))
    ensures Progress(dev, before, Finished(message, 0, [], true))
  {
    hide Decode, SeekTo, Rest;
    if SeekTo(dev.lines, seek.command, seek.offset).Some? {
      var pos := SeekTo(dev.lines, seek.command, seek.offset).value;
      assert [] + Rest(dev.lines, pos) == Rest(dev.lines, pos);
    }
  }

  /** Each read hands the next bytes of the reply to the client; an empty one means it is complete. */
  lemma ReadProgress(dev: Dev, before: Dev, message: Bytes, written: nat, pos: nat, sent: Bytes)
    requires Progress(dev, before, Sending(message, written, pos, sent))
    ensures var data := ReadAt(dev.lines, pos, SEND_BUFFER);
            Progress(dev, before,
                     if data == [] then Finished(message, written, sent, false)
                     else Sending(message, written, pos + |data|, sent + data))
    ensures Progress(dev, before, Finished(message, written, sent, true))
  {
    hide Handle, ReadAt, Rest;
    ReadIsPrefix(dev.lines, pos, SEND_BUFFER);
    var data := ReadAt(dev.lines, pos, SEND_BUFFER);
    assert sent + data + Rest(dev.lines, pos + |data|) == sent + (data + Rest(dev.lines, pos + |data|));
    assert sent + [] == sent;
  }

  /** A thread inside the critical section is the holder. */
  lemma OnlyTheHolder(s: State, before: Dev, t: nat)
    requires Exclusion(s, before) && t < |s.threads| && s.threads[t].phase.HoldsMutex()
    ensures s.mutex == Some(t) && Progress(s.dev, before, s.threads[t].phase)
  {
  }

  lemma HolderMoves(s: State, before: Dev, t: nat, dev: Dev, phase: Phase)
    requires Exclusion(s, before) && s.mutex == Some(t) && t < |s.threads|
    requires Progress(dev, before, phase)
    ensures Exclusion(SetPhase(s, t, phase).(dev := dev), before)
  {
    hide Progress;
  }

  lemma OutsiderMoves(s: State, before: Dev, t: nat, thread: Thread)
    requires Exclusion(s, before) && t < |s.threads|
    requires !s.threads[t].phase.HoldsMutex() && !thread.phase.HoldsMutex()
    ensures Exclusion(s.(threads := s.threads[t := thread]), before)
  {
    if s.mutex.Some? && s.mutex.value < |s.threads| {
      assert Progress(s.dev, before, s.threads[s.mutex.value].phase);
      hide Progress;
    }
  }

  /** Steps of a thread that does not hold the mutex. */
  lemma OutsideKeepsExclusion(s0: State, s: State, a: Action)
    requires Inv(s0, s) && Enabled(s, a)
    requires a.Receive? || a.OpenFails? || a.Lock?
    ensures Exclusion(Step(s, a), SerialDev(s0.dev, Step(s, a).log))
  {
    hide Handle, ReadAt, Decode, Accept, SeekTo, Payload, CString, Exclusion, Progress;
    var before := SerialDev(s0.dev, s.log);
    var thread := s.threads[a.t];
    if a.Receive? {
      OutsiderMoves(s, before, a.t, Thread(thread.inbox[1..], Waiting(thread.inbox[0])));
    } else if a.OpenFails? {
      assert Step(s, a).log[..|s.log|] == s.log;
      OutsiderMoves(s, before, a.t, thread.(phase := Idle));
      LogIsApart(SetPhase(s, a.t, Idle), before, Step(s, a).log);
    } else {
      LockKeepsExclusion(s0, s, a);
    }
  }

  lemma LogIsApart(s: State, before: Dev, log: seq<LogEntry>)
    requires Exclusion(s, before)
    ensures Exclusion(s.(log := log), before)
  {
    hide Progress;
  }

  lemma LockKeepsExclusion(s0: State, s: State, a: Action)
    requires Inv(s0, s) && Enabled(s, a) && a.Lock?
    ensures Exclusion(Step(s, a), SerialDev(s0.dev, s.log))
  {
    hide Handle, ReadAt, Decode, Accept, SeekTo, Payload, CString, SerialDev;
    LockProgress(SerialDev(s0.dev, s.log), s.threads[a.t].phase.message);
    hide Progress;
  }

  /** Steps of the holder, up to the end of its reply. */
  lemma InsideKeepsExclusion(s0: State, s: State, a: Action)
    requires Inv(s0, s) && Enabled(s, a)
    requires a.WriteSome? || a.WriteFails? || a.DoSeek? || a.SeekFails? || a.ReadSome? || a.ReplyFails?
    ensures Exclusion(Step(s, a), SerialDev(s0.dev, Step(s, a).log))
  {
    hide Handle, ReadAt, Decode, Accept, SeekTo, Payload, CString, Exclusion, Progress, SerialDev;
    var before := SerialDev(s0.dev, s.log);
    var s' := Step(s, a);
    var phase := s.threads[a.t].phase;
    OnlyTheHolder(s, before, a.t);
    if a.WriteSome? {
      WriteProgress(s.dev, before, phase.message, phase.todo, a.n);
    } else if a.WriteFails? {
      WriteFailure(s.dev, before, phase.message, phase.todo);
    } else if a.DoSeek? || a.SeekFails? {
      SeekProgress(s.dev, before, phase.message, phase.seek);
    } else {
      ReadProgress(s.dev, before, phase.message, phase.written, phase.pos, phase.sent);
    }
    HolderMoves(s, before, a.t, s'.dev, s'.threads[a.t].phase);
    assert s' == SetPhase(s, a.t, s'.threads[a.t].phase).(dev := s'.dev);
  }

  /** However far a message got, what it leaves staged does not end in a newline. */
  lemma HandledStaging(before: Dev, message: Bytes, written: nat)
    requires !EndsInNewline(before.staging)
    ensures !EndsInNewline(Handle(before, message, written).dev.staging)
  {
    hide Decode, Flatten, Written, SeekTo, Rest;
  }

  /** Giving the mutex back turns the handled message into the last one of the log. */
  lemma UnlockKeepsExclusion(s0: State, s: State, a: Action)
    requires Inv(s0, s) && Enabled(s, a) && a.Unlock?
    ensures Exclusion(Step(s, a), SerialDev(s0.dev, Step(s, a).log))
  {
    hide Handle, ReadAt, Decode, Accept, SeekTo, Payload, CString;
    var before, phase := SerialDev(s0.dev, s.log), s.threads[a.t].phase;
    OnlyTheHolder(s, before, a.t);
    HandledStaging(before, phase.message, phase.written);
    assert Step(s, a).log[..|s.log|] == s.log;
  }

  lemma KeepsExclusion(s0: State, s: State, a: Action)
    requires Inv(s0, s) && Enabled(s, a)
    ensures Exclusion(Step(s, a), SerialDev(s0.dev, Step(s, a).log))
  {
    if a.Unlock? {
      UnlockKeepsExclusion(s0, s, a);
    } else if a.Receive? || a.OpenFails? || a.Lock? {
      OutsideKeepsExclusion(s0, s, a);
    } else {
      InsideKeepsExclusion(s0, s, a);
    }
  }

  lemma LockProgress(before: Dev, message: Bytes)
    requires NEWLINE !in message && !EndsInNewline(before.staging)
    ensures Progress(before, before,
                     match Decode(CString(message))
                     case None => Writing(message, Payload(message))
                     case Some(seek) => Seeking(message, seek))
  {
    hide Decode, CString;
    assert Payload(message)[0..] == Payload(message);
    assert before.staging + Payload(message)[..0] == before.staging;
  }

  lemma KeepsExplained(s0: State, s: State, a: Action)
    requires Inv(s0, s) && Enabled(s, a)
    ensures Explained(s0.dev, Step(s, a).log)
  {
    hide Handle, ReadAt, Decode, Accept, SeekTo, Payload, CString, SerialDev;
    var log := Step(s, a).log;
    forall k | 0 <= k < |log| && log[k].Served?
      ensures Replies(log[k].reply, log[k].cut,
                      Handle(SerialDev(s0.dev, log[..k]), log[k].message, log[k].written).reply)
    {
      if k < |s.log| {
        assert log[k] == s.log[k] && log[..k] == s.log[..k];
      } else {
        assert log[..k] == s.log;
      }
    }
  }

  /** What a step does to the log and to each thread's messages; `e` is what it logs. */
  lemma StepOnMessages(s: State, a: Action, t: nat) returns (e: LogEntry)
    requires Enabled(s, a) && t < |s.threads|
    ensures var s' := Step(s, a);
            && |s'.threads| == |s.threads|
            && var before, after := s.threads[t], s'.threads[t];
               if a.Unlock? || a.OpenFails? then
                 && before.inbox == after.inbox && e.thread == a.t && s'.log == s.log + [e]
                 && if t == a.t then before.phase.InWork() == [e.message] && after.phase.InWork() == []
                    else before.phase == after.phase
               else if a.Receive? && t == a.t then
                 && s'.log == s.log && before.inbox != [] && after.inbox == before.inbox[1..]
                 && before.phase.InWork() == [] && after.phase.InWork() == [before.inbox[0]]
               else
                 s'.log == s.log && before.inbox == after.inbox && before.phase.InWork() == after.phase.InWork()
  {
    hide ReadAt, Decode, Accept, SeekTo, Payload, CString, WrittenSoFar;
    if a.Unlock? || a.OpenFails? {
      var log := Step(s, a).log;
      e := log[|s.log|];
      assert log == s.log + [e];
    } else {
      e := Dropped(0, []);
    }
  }

  lemma MessagesSnoc(log: seq<LogEntry>, e: LogEntry, t: nat)
    ensures MessagesOf(log + [e], t) == if e.thread == t then MessagesOf(log, t) + [e.message] else MessagesOf(log, t)
  {
    assert (log + [e])[..|log|] == log;
  }

  lemma OrderOfOne(done: seq<Bytes>, work: seq<Bytes>, inbox: seq<Bytes>)
    ensures |inbox| > 0 ==> done + [inbox[0]] + inbox[1..] == done + [] + inbox
    ensures done + work + [] + inbox == done + work + inbox
  {
  }

  /** A step moves a message of its thread from the inbox to work, or from work to the log. */
  lemma KeepsOrderOf(s: State, a: Action, t: nat)
    requires Enabled(s, a) && t < |s.threads|
    ensures var s' := Step(s, a);
            && |s'.threads| == |s.threads|
            && MessagesOf(s'.log, t) + s'.threads[t].phase.InWork() + s'.threads[t].inbox ==
               MessagesOf(s.log, t) + s.threads[t].phase.InWork() + s.threads[t].inbox
  {
    var e := StepOnMessages(s, a, t);
    hide Step, Enabled, MessagesOf, Phase.InWork;
    var s' := Step(s, a);
    OrderOfOne(MessagesOf(s.log, t), s.threads[t].phase.InWork(), s.threads[t].inbox);
    if a.Unlock? || a.OpenFails? {
      MessagesSnoc(s.log, e, t);
    }
  }

  lemma KeepsOrder(s0: State, s: State, a: Action)
    requires Inv(s0, s) && Enabled(s, a)
    ensures InOrder(s0, Step(s, a))
  {
    assert a.t < |s.threads|;
    hide Step, Enabled, SerialDev, Exclusion, Explained, NewlineFree, MessagesOf, Phase.InWork;
    KeepsOrderOf(s, a, a.t);
    var s' := Step(s, a);
    forall t | 0 <= t < |s'.threads|
      ensures MessagesOf(s'.log, t) + s'.threads[t].phase.InWork() + s'.threads[t].inbox == s0.threads[t].inbox
    {
      KeepsOrderOf(s, a, t);
    }
  }

  lemma KeepsNewlineFree(s: State, a: Action)
    requires Enabled(s, a)
    requires forall t :: 0 <= t < |s.threads| ==> NewlineFree(s.threads[t])
    ensures forall t :: 0 <= t < |s.threads| ==> NewlineFree(Step(s, a).threads[t])
  {
    hide ReadAt, Decode, Accept, SeekTo, Payload, CString;
    forall t | 0 <= t < |s.threads|
      ensures NewlineFree(Step(s, a).threads[t])
    {
      assert NewlineFree(s.threads[t]);
    }
  }

  lemma StepKeepsInv(s0: State, s: State, a: Action)
    requires Inv(s0, s) && Enabled(s, a)
    ensures Inv(s0, Step(s, a))
  {
    hide Exclusion, Explained;
    KeepsExclusion(s0, s, a);
    KeepsExplained(s0, s, a);
    KeepsOrder(s0, s, a);
    KeepsNewlineFree(s, a);
  }

  lemma InitialInv(s0: State)
    requires Initial(s0)
    ensures Inv(s0, s0)
  {
    forall t | 0 <= t < |s0.threads|
      ensures MessagesOf(s0.log, t) + s0.threads[t].phase.InWork() + s0.threads[t].inbox == s0.threads[t].inbox
    {
      assert [] + [] + s0.threads[t].inbox == s0.threads[t].inbox;
    }
  }

  lemma {:induction false} RunKeepsInv(s0: State, s: State, actions: seq<Action>)
    requires Inv(s0, s) && CanRun(s, actions)
    ensures Inv(s0, Run(s, actions))
    decreases |actions|
  {
    hide Inv, Step, Enabled;
    if actions != [] {
      StepKeepsInv(s0, s, actions[0]);
      RunKeepsInv(s0, Step(s, actions[0]), actions[1..]);
    }
  }
}
