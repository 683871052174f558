/**
  Which series of actions are runs.  The conditions here speak of the series alone: what each
  thread has done so far, whether the mutex is held, and what the device must hold by what was
  written.  They never look at the server's state, and they turn out to be exact.
 */
module Runs {
  import opened ByteStrings
  import opened DeviceSpec
  import opened SeekCommand
  import opened Protocol

  /** The program of one thread: its own actions, in order. */
  function OnThread(actions: seq<Action>, t: nat): seq<Action> {
    if actions == [] then []
    else
      var before, last := OnThread(actions[..|actions| - 1], t), actions[|actions| - 1];
      if last.t == t then before + [last] else before
  }

  /** What matters of a program: its messages so far, and for the last one its bytes written and its reads. */
  datatype History = History(received: nat, written: nat, fetched: nat, last: Option<Action>)

  function Then(h: History, a: Action): History {
    match a
    case Receive(_) => History(h.received + 1, 0, 0, Some(a))
    case WriteSome(_, n) => h.(written := h.written + n, last := Some(a))
    case ReadSome(_) => h.(fetched := h.fetched + 1, last := Some(a))
    case _ => h.(last := Some(a))
  }

  function Told(program: seq<Action>): History {
    if program == [] then History(0, 0, 0, None)
    else Then(Told(program[..|program| - 1]), program[|program| - 1])
  }

  predicate IsPlainText(message: Bytes) {
    Decode(CString(message)) == None
  }

  /** The device is being written, or is about to be. */
  predicate MayWrite(h: History) {
    h.last.Some? && (h.last.value.Lock? || h.last.value.WriteSome?)
  }

  /** The message is written, given up unnoticed, or a seek; or its reply has begun. */
  predicate MayReply(message: Bytes, h: History) {
    h.last.Some? &&
    match h.last.value
    case WriteSome(_, _) => h.written == |Payload(message)|
    case WriteFails(_, noticed) => !noticed
    case DoSeek(_) => true
    case ReadSome(_) => true
    case _ => false
  }

  /** The work on the message may be over. */
  predicate MayEnd(h: History) {
    h.last.Some? &&
    match h.last.value
    case WriteFails(_, noticed) => noticed
    case DoSeek(_) => true
    case SeekFails(_) => true
    case ReadSome(_) => true
    case ReplyFails(_) => true
    case _ => false
  }

  /**
    What a thread may do next by its own program: receive; then fail to open the device, or
    take the mutex; then write the message in any pieces, or seek, and either may fail; then
    read until the end or a failure; then give the mutex back.
   */
  predicate Legal(inbox: seq<Bytes>, h: History, a: Action) {
    match a
    case Receive(_) =>
      h.received < |inbox| && (h.last == None || h.last.value.Unlock? || h.last.value.OpenFails?)
    case _ =>
      0 < h.received <= |inbox| && h.last.Some? &&
      var message := inbox[h.received - 1];
      match a
      case OpenFails(_) => h.last.value.Receive?
      case Lock(_) => h.last.value.Receive?
      case WriteSome(_, n) => IsPlainText(message) && MayWrite(h) && 0 < n <= |Payload(message)| - h.written
      case WriteFails(_, _) => IsPlainText(message) && MayWrite(h) && h.written < |Payload(message)|
      case DoSeek(_) => !IsPlainText(message) && h.last.value.Lock?
      case SeekFails(_) => !IsPlainText(message) && h.last.value.Lock?
      case ReadSome(_) => MayReply(message, h)
      case ReplyFails(_) => MayReply(message, h)
      case Unlock(_) => MayEnd(h)
  }

  // ---------- what reads depend on ----------

  /** Where the reply to a message begins. */
  function Start(lines: seq<Bytes>, message: Bytes): Option<nat> {
    match Decode(CString(message))
    case None => Some(0)
    case Some(seek) => SeekTo(lines, seek.command, seek.offset)
  }

  /** The file position after `n` reads into a buffer of 4096 bytes. */
  function PosAfter(lines: seq<Bytes>, start: nat, n: nat): nat {
    if n == 0 then start
    else
      var pos := PosAfter(lines, start, n - 1);
      pos + |ReadAt(lines, pos, 4096)|
  }

  /** Nothing is left to reply after `n` reads: the seek was refused, or the last read was at the end. */
  predicate IsOver(lines: seq<Bytes>, message: Bytes, n: nat) {
    match Start(lines, message)
    case None => true
    case Some(start) => n > 0 && Rest(lines, PosAfter(lines, start, n - 1)) == []
  }

  /** Reads go on exactly until one returns nothing, and one that returns nothing cannot fail. */
  predicate AsDeviceSays(lines: seq<Bytes>, message: Bytes, h: History, a: Action) {
    match a
    case ReadSome(_) => !IsOver(lines, message, h.fetched)
    case ReplyFails(_) =>
      !IsOver(lines, message, h.fetched) && Rest(lines, PosAfter(lines, Start(lines, message).value, h.fetched)) != []
    case Unlock(_) =>
      h.last.Some? && (h.last.value.ReadSome? || h.last.value.DoSeek?) ==> IsOver(lines, message, h.fetched)
    case _ => true
  }

  /** What a write action writes: the next `n` bytes of the thread's message. */
  function Chunk(s0: State, actions: seq<Action>, t: nat, n: nat): Bytes
    requires t < |s0.threads|
  {
    var h, inbox := Told(OnThread(actions, t)), s0.threads[t].inbox;
    if 0 < h.received <= |inbox| && h.written + n <= |Payload(inbox[h.received - 1])|
    then Payload(inbox[h.received - 1])[h.written..h.written + n] else []
  }

  /** The device by what was written. */
  function DevAfter(s0: State, actions: seq<Action>): Dev {
    if actions == [] then s0.dev
    else
      var prefix, a := actions[..|actions| - 1], actions[|actions| - 1];
      if a.WriteSome? && a.t < |s0.threads| then Accept(DevAfter(s0, prefix), Chunk(s0, prefix, a.t, a.n))
      else DevAfter(s0, prefix)
  }

  predicate MutexFree(actions: seq<Action>) {
    actions == [] ||
    var prefix, a := actions[..|actions| - 1], actions[|actions| - 1];
    a.Unlock? || (!a.Lock? && MutexFree(prefix))
  }

  // ---------- runs ----------

  /** An action may follow what its own thread has done: its program, the mutex and the device allow it. */
  predicate MayGoOn(inbox: seq<Bytes>, h: History, free: bool, lines: seq<Bytes>, a: Action) {
    && Legal(inbox, h, a)
    && (a.Lock? ==> free)
    && (0 < h.received <= |inbox| ==> AsDeviceSays(lines, inbox[h.received - 1], h, a))
  }

  predicate MayFollow(s0: State, actions: seq<Action>, a: Action) {
    && a.t < |s0.threads|
    && var lines := DevAfter(s0, actions).lines;
       MayGoOn(s0.threads[a.t].inbox, Told(OnThread(actions, a.t)), MutexFree(actions), lines, a)
  }

  predicate LegalRun(s0: State, actions: seq<Action>) {
    actions == [] ||
    var prefix := actions[..|actions| - 1];
    LegalRun(s0, prefix) && MayFollow(s0, prefix, actions[|actions| - 1])
  }

  // ---------- the state agrees with the series ----------

  ghost predicate ThreadAgrees(inbox: seq<Bytes>, h: History, thread: Thread, lines: seq<Bytes>) {
    && h.received <= |inbox| && thread.inbox == inbox[h.received..]
    && if thread.phase.Idle? then h.last == None || h.last.value.Unlock? || h.last.value.OpenFails?
       else
         && 0 < h.received && h.last.Some? && thread.phase.message == inbox[h.received - 1]
         && PhaseAgrees(thread.phase, h, lines)
  }

  ghost predicate PhaseAgrees(phase: Phase, h: History, lines: seq<Bytes>)
    requires !phase.Idle? && h.last.Some?
  {
    var message, last := phase.message, h.last.value;
    match phase
    case Waiting(_) => last.Receive? && h.written == 0 && h.fetched == 0
    case Writing(_, todo) =>
      && IsPlainText(message) && MayWrite(h) && h.fetched == 0
      && h.written < |Payload(message)| && todo == Payload(message)[h.written..]
    case Seeking(_, seek) => Decode(CString(message)) == Some(seek) && last.Lock? && h.fetched == 0
    case Sending(_, _, pos, sent) =>
      && MayReply(message, h) && !IsOver(lines, message, h.fetched)
      && (last.ReadSome? || h.fetched == 0) && (last.DoSeek? ==> !IsPlainText(message))
      && (last.WriteSome? || last.WriteFails? ==> IsPlainText(message))
      && var start := Start(lines, message).value;
         pos == PosAfter(lines, start, h.fetched) && start + |sent| == pos
    case Finished(_, _, sent, _) =>
      && MayEnd(h) && (last.ReadSome? || last.DoSeek? ==> IsOver(lines, message, h.fetched))
      && |sent| == BytesRead(lines, message, h.fetched)
  }

  /** How many bytes the reads of a reply have returned. */
  function BytesRead(lines: seq<Bytes>, message: Bytes, n: nat): int {
    match Start(lines, message)
    case None => 0
    case Some(start) => PosAfter(lines, start, n) - start
  }

  ghost predicate Agrees(s0: State, actions: seq<Action>, s: State) {
    && |s.threads| == |s0.threads|
    && s.dev == DevAfter(s0, actions)
    && (s.mutex == None <==> MutexFree(actions))
    && forall t :: 0 <= t < |s.threads| ==>
         ThreadAgrees(s0.threads[t].inbox, Told(OnThread(actions, t)), s.threads[t], s.dev.lines)
  }

  lemma Snoc(s0: State, actions: seq<Action>, a: Action, t: nat)
    ensures OnThread(actions + [a], t) == if a.t == t then OnThread(actions, t) + [a] else OnThread(actions, t)
    ensures Told(OnThread(actions + [a], t)) ==
            if a.t == t then Then(Told(OnThread(actions, t)), a) else Told(OnThread(actions, t))
    ensures MutexFree(actions + [a]) <==> a.Unlock? || (!a.Lock? && MutexFree(actions))
    ensures DevAfter(s0, actions + [a]) ==
            if a.WriteSome? && a.t < |s0.threads| then Accept(DevAfter(s0, actions), Chunk(s0, actions, a.t, a.n))
            else DevAfter(s0, actions)
    ensures LegalRun(s0, actions + [a]) <==> LegalRun(s0, actions) && MayFollow(s0, actions, a)
  {
    assert (actions + [a])[..|actions|] == actions;
    var program := OnThread(actions, t);
    assert (program + [a])[..|program|] == program;
  }

  lemma EnabledOutside(s: State, inbox: seq<Bytes>, h: History, a: Action)
    requires a.t < |s.threads| && ThreadAgrees(inbox, h, s.threads[a.t], s.dev.lines)
    requires a.Receive? || a.OpenFails? || a.Lock?
    ensures Enabled(s, a) <==> MayGoOn(inbox, h, s.mutex == None, s.dev.lines, a)
  {
    hide Decode, CString, Payload, IsOver, SeekTo, Start, BytesRead;
  }

  lemma EnabledInside(s: State, inbox: seq<Bytes>, h: History, a: Action)
    requires a.t < |s.threads| && ThreadAgrees(inbox, h, s.threads[a.t], s.dev.lines)
    requires a.WriteSome? || a.WriteFails? || a.DoSeek? || a.SeekFails?
    ensures Enabled(s, a) <==> MayGoOn(inbox, h, s.mutex == None, s.dev.lines, a)
  {
    hide Decode, CString, Payload, IsOver, SeekTo, Start, BytesRead;
  }

  lemma EnabledReply(s: State, inbox: seq<Bytes>, h: History, a: Action)
    requires a.t < |s.threads| && ThreadAgrees(inbox, h, s.threads[a.t], s.dev.lines)
    requires a.ReadSome? || a.ReplyFails? || a.Unlock?
    ensures Enabled(s, a) <==> MayGoOn(inbox, h, s.mutex == None, s.dev.lines, a)
  {
    if a.ReplyFails? && s.threads[a.t].phase.Sending? {
      ReadIsPrefix(s.dev.lines, s.threads[a.t].phase.pos, SEND_BUFFER);
    }
    hide Decode, CString, Payload, IsOver, SeekTo, Start, BytesRead, PosAfter, Rest, ReadAt;
  }

  /** By what a thread has done and the state it is in, exactly the legal actions are enabled. */
  lemma EnabledIff(s0: State, actions: seq<Action>, s: State, a: Action)
    requires Agrees(s0, actions, s)
    ensures Enabled(s, a) <==> MayFollow(s0, actions, a)
  {
    if a.t < |s.threads| {
      var inbox, h := s0.threads[a.t].inbox, Told(OnThread(actions, a.t));
      assert ThreadAgrees(inbox, h, s.threads[a.t], s.dev.lines);
      if a.Receive? || a.OpenFails? || a.Lock? {
        EnabledOutside(s, inbox, h, a);
      } else if a.ReadSome? || a.ReplyFails? || a.Unlock? {
        EnabledReply(s, inbox, h, a);
      } else {
        EnabledInside(s, inbox, h, a);
      }
      hide Enabled, Legal, AsDeviceSays, ThreadAgrees;
    } else {
      hide Legal, AsDeviceSays;
    }
  }

  // ---------- every step keeps the agreement ----------

  lemma OutsideStepAgrees(s: State, inbox: seq<Bytes>, h: History, a: Action)
    requires a.t < |s.threads| && ThreadAgrees(inbox, h, s.threads[a.t], s.dev.lines) && Enabled(s, a)
    requires a.Receive? || a.OpenFails? || a.Lock?
    ensures ThreadAgrees(inbox, Then(h, a), Step(s, a).threads[a.t], Step(s, a).dev.lines)
  {
    hide Decode, CString, Payload, IsOver, SeekTo, Start, BytesRead, PosAfter, ReadAt;
    if a.Lock? {
      WholePayload(s.threads[a.t].phase.message);
    }
  }

  lemma WholePayload(message: Bytes)
    ensures |Payload(message)| > 0 && Payload(message)[0..] == Payload(message)
  {
  }

  lemma InsideStepAgrees(s: State, inbox: seq<Bytes>, h: History, a: Action)
    requires a.t < |s.threads| && ThreadAgrees(inbox, h, s.threads[a.t], s.dev.lines) && Enabled(s, a)
    requires a.WriteSome? || a.WriteFails? || a.DoSeek? || a.SeekFails?
    ensures ThreadAgrees(inbox, Then(h, a), Step(s, a).threads[a.t], Step(s, a).dev.lines)
  {
    hide Decode, CString, Payload, SeekTo, Accept, WrittenSoFar, Rest, ReadAt;
  }

  /** One more read is one more in the count, and the position goes on by what it returned. */
  lemma ReadPhase(message: Bytes, written: nat, pos: nat, sent: Bytes, h: History, lines: seq<Bytes>, a: Action)
    requires h.last.Some? && PhaseAgrees(Sending(message, written, pos, sent), h, lines) && a.ReadSome?
    ensures var data := ReadAt(lines, pos, SEND_BUFFER);
            PhaseAgrees(if data == [] then Finished(message, written, sent, false)
                        else Sending(message, written, pos + |data|, sent + data), Then(h, a), lines)
  {
    hide Start, PosAfter, Rest, ReadAt, IsPlainText, Payload;
    OneMoreRead(lines, message, Start(lines, message).value, h.fetched);
    hide IsOver, BytesRead;
  }

  lemma OneMoreRead(lines: seq<Bytes>, message: Bytes, start: nat, n: nat)
    requires Start(lines, message) == Some(start)
    ensures var pos := PosAfter(lines, start, n);
            var data := ReadAt(lines, pos, SEND_BUFFER);
            && PosAfter(lines, start, n + 1) == pos + |data|
            && BytesRead(lines, message, n + 1) == pos + |data| - start
            && (IsOver(lines, message, n + 1) <==> data == [])
  {
    ReadIsPrefix(lines, PosAfter(lines, start, n), SEND_BUFFER);
    PosStep(lines, start, n);
    hide Start, Rest, ReadAt, PosAfter;
  }

  lemma PosStep(lines: seq<Bytes>, start: nat, n: nat)
    ensures var pos := PosAfter(lines, start, n);
            PosAfter(lines, start, n + 1) == pos + |ReadAt(lines, pos, SEND_BUFFER)|
  {
    hide ReadAt;
  }

  lemma ReadStepAgrees(s: State, inbox: seq<Bytes>, h: History, a: Action)
    requires a.t < |s.threads| && ThreadAgrees(inbox, h, s.threads[a.t], s.dev.lines) && Enabled(s, a)
    requires a.ReadSome?
    ensures ThreadAgrees(inbox, Then(h, a), Step(s, a).threads[a.t], Step(s, a).dev.lines)
  {
    var phase := s.threads[a.t].phase;
    ReadPhase(phase.message, phase.written, phase.pos, phase.sent, h, s.dev.lines, a);
    hide PhaseAgrees, ReadAt, Decode, CString, Payload, SeekTo, Rest, IsOver, BytesRead, PosAfter;
  }

  lemma EndStepAgrees(s: State, inbox: seq<Bytes>, h: History, a: Action)
    requires a.t < |s.threads| && ThreadAgrees(inbox, h, s.threads[a.t], s.dev.lines) && Enabled(s, a)
    requires a.ReplyFails? || a.Unlock?
    ensures ThreadAgrees(inbox, Then(h, a), Step(s, a).threads[a.t], Step(s, a).dev.lines)
  {
    hide Decode, CString, Payload, SeekTo, Start, PosAfter, Rest, ReadAt;
  }

  /** A thread outside does not depend on what the device holds. */
  lemma OutsideIgnoresDevice(inbox: seq<Bytes>, h: History, thread: Thread, lines: seq<Bytes>, lines': seq<Bytes>)
    requires ThreadAgrees(inbox, h, thread, lines) && !thread.phase.HoldsMutex()
    ensures ThreadAgrees(inbox, h, thread, lines')
  {
  }

  /** A write writes what its thread's program says. */
  lemma WritesChunk(s0: State, actions: seq<Action>, s: State, a: Action)
    requires Agrees(s0, actions, s) && Enabled(s, a) && a.WriteSome?
    ensures Step(s, a).dev == Accept(s.dev, Chunk(s0, actions, a.t, a.n))
  {
    var h := Told(OnThread(actions, a.t));
    assert ThreadAgrees(s0.threads[a.t].inbox, h, s.threads[a.t], s.dev.lines);
    hide Decode, CString, Payload, Accept, Told, OnThread, DevAfter, MutexFree;
    NextBytes(Payload(s.threads[a.t].phase.message), h.written, a.n);
  }

  lemma NextBytes(payload: Bytes, done: nat, n: nat)
    requires done <= |payload| && n <= |payload[done..]|
    ensures payload[done..][..n] == payload[done..done + n]
  {
  }

  /** Only a write changes the device, only the mutex calls the mutex, and no step another thread. */
  lemma StepTouches(s: State, a: Action)
    requires Enabled(s, a)
    ensures var s' := Step(s, a);
            && |s'.threads| == |s.threads|
            && (forall t :: 0 <= t < |s.threads| && t != a.t ==> s'.threads[t] == s.threads[t])
            && (!a.WriteSome? ==> s'.dev == s.dev)
            && s'.mutex == (if a.Lock? then Some(a.t) else if a.Unlock? then None else s.mutex)
  {
    hide Decode, CString, Payload, Accept, SeekTo, ReadAt, WrittenSoFar;
  }

  lemma ActorAgrees(s0: State, actions: seq<Action>, s: State, a: Action)
    requires Agrees(s0, actions, s) && Enabled(s, a)
    ensures ThreadAgrees(s0.threads[a.t].inbox, Then(Told(OnThread(actions, a.t)), a),
                         Step(s, a).threads[a.t], Step(s, a).dev.lines)
  {
    var inbox, h := s0.threads[a.t].inbox, Told(OnThread(actions, a.t));
    assert ThreadAgrees(inbox, h, s.threads[a.t], s.dev.lines);
    hide Enabled, Step, ThreadAgrees, Then, Told, OnThread, DevAfter, MutexFree;
    if a.Receive? || a.OpenFails? || a.Lock? {
      OutsideStepAgrees(s, inbox, h, a);
    } else if a.ReadSome? {
      ReadStepAgrees(s, inbox, h, a);
    } else if a.ReplyFails? || a.Unlock? {
      EndStepAgrees(s, inbox, h, a);
    } else {
      InsideStepAgrees(s, inbox, h, a);
    }
  }

  lemma StepAgrees(s0: State, actions: seq<Action>, s: State, a: Action)
    requires Inv(s0, s) && Agrees(s0, actions, s) && Enabled(s, a)
    ensures Agrees(s0, actions + [a], Step(s, a))
  {
    var s' := Step(s, a);
    StepTouches(s, a);
    ActorAgrees(s0, actions, s, a);
    Snoc(s0, actions, a, a.t);
    if a.WriteSome? {
      WritesChunk(s0, actions, s, a);
    }
    forall t | 0 <= t < |s.threads|
      ensures ThreadAgrees(s0.threads[t].inbox, Told(OnThread(actions + [a], t)), s'.threads[t], s'.dev.lines)
    {
      Snoc(s0, actions, a, t);
      if t != a.t {
        var inbox, h := s0.threads[t].inbox, Told(OnThread(actions, t));
        assert ThreadAgrees(inbox, h, s.threads[t], s.dev.lines);
        if a.WriteSome? {
          OthersAreOutside(s0, s, a, t);
          OutsideIgnoresDevice(inbox, h, s.threads[t], s.dev.lines, s'.dev.lines);
        }
      }
    }
    hide Inv, Enabled, Step, ThreadAgrees, Told, OnThread, DevAfter, MutexFree, Then, Chunk, Accept;
  }

  lemma OthersAreOutside(s0: State, s: State, a: Action, t: nat)
    requires Inv(s0, s) && Enabled(s, a) && a.WriteSome? && t < |s.threads| && t != a.t
    ensures !s.threads[t].phase.HoldsMutex()
  {
    hide Progress, SerialDev;
    OnlyTheHolder(s, SerialDev(s0.dev, s.log), a.t);
  }

  lemma StartAgrees(s0: State)
    requires Initial(s0)
    ensures Agrees(s0, [], s0)
  {
    hide PhaseAgrees;
  }

  /** A series with one more action is a run exactly when the action is enabled after the others. */
  lemma {:induction false} RunSnoc(s: State, actions: seq<Action>, a: Action)
    ensures CanRun(s, actions + [a]) <==> CanRun(s, actions) && Enabled(Run(s, actions), a)
    ensures CanRun(s, actions + [a]) ==> Run(s, actions + [a]) == Step(Run(s, actions), a)
    decreases |actions|
  {
    hide Enabled, Step;
    if actions == [] {
      assert ([] + [a])[0] == a && ([] + [a])[1..] == [];
    } else {
      assert (actions + [a])[0] == actions[0] && (actions + [a])[1..] == actions[1..] + [a];
      if Enabled(s, actions[0]) {
        RunSnoc(Step(s, actions[0]), actions[1..], a);
      }
    }
  }

  /**
    A series of actions is a run exactly when each action is allowed by what its own thread
    has done, a mutex that is free if it is to be taken, and what was written to the device.
    The state at the end then agrees with the series.
   */
  lemma {:induction false} RunsAreLegal(s0: State, actions: seq<Action>)
    requires Initial(s0)
    ensures CanRun(s0, actions) <==> LegalRun(s0, actions)
    ensures CanRun(s0, actions) ==> Agrees(s0, actions, Run(s0, actions)) && Inv(s0, Run(s0, actions))
    decreases |actions|
  {
    hide Inv, Enabled, Step, Agrees, MayFollow, Run, CanRun;
    if actions == [] {
      StartAgrees(s0);
      InitialInv(s0);
      NoActions(s0);
    } else {
      hide Initial;
      var prefix, a := actions[..|actions| - 1], actions[|actions| - 1];
      assert actions == prefix + [a];
      RunsAreLegal(s0, prefix);
      RunSnoc(s0, prefix, a);
      if CanRun(s0, prefix) {
        EnabledIff(s0, prefix, Run(s0, prefix), a);
        if Enabled(Run(s0, prefix), a) {
          StepAgrees(s0, prefix, Run(s0, prefix), a);
          StepKeepsInv(s0, Run(s0, prefix), a);
        }
      }
    }
  }

  lemma NoActions(s0: State)
    ensures CanRun(s0, []) && Run(s0, []) == s0
  {
  }

  // ---------- shuffles ----------

  /** A program that one connection's thread may go through. */
  predicate LegalProgram(inbox: seq<Bytes>, program: seq<Action>) {
    program == [] ||
    var prefix := program[..|program| - 1];
    LegalProgram(inbox, prefix) && Legal(inbox, Told(prefix), program[|program| - 1])
  }

  /** The mutex is taken only while it is free. */
  predicate LocksWhileFree(actions: seq<Action>) {
    actions == [] ||
    var prefix := actions[..|actions| - 1];
    LocksWhileFree(prefix) && (actions[|actions| - 1].Lock? ==> MutexFree(prefix))
  }

  /** Replies are read until nothing is left, and only so far. */
  predicate RepliesReadOut(s0: State, actions: seq<Action>) {
    actions == [] ||
    var prefix := actions[..|actions| - 1];
    RepliesReadOut(s0, prefix) && DeviceAllows(s0, prefix, actions[|actions| - 1])
  }

  predicate DeviceAllows(s0: State, actions: seq<Action>, a: Action) {
    a.t < |s0.threads| ==>
      var h, inbox := Told(OnThread(actions, a.t)), s0.threads[a.t].inbox;
      0 < h.received <= |inbox| ==> AsDeviceSays(DevAfter(s0, actions).lines, inbox[h.received - 1], h, a)
  }

  ghost predicate OfThreads(s0: State, actions: seq<Action>) {
    forall i :: 0 <= i < |actions| ==> actions[i].t < |s0.threads|
  }

  ghost predicate LegalPrograms(s0: State, actions: seq<Action>) {
    forall t :: 0 <= t < |s0.threads| ==> LegalProgram(s0.threads[t].inbox, OnThread(actions, t))
  }

  /**
    Every interleaving of legal programs is a run if the mutex is taken only while it is free
    and replies are read out; and there are no other runs.
   */
  lemma ShufflesAreRuns(s0: State, actions: seq<Action>)
    requires Initial(s0)
    ensures CanRun(s0, actions) <==>
            && OfThreads(s0, actions) && LegalPrograms(s0, actions)
            && LocksWhileFree(actions) && RepliesReadOut(s0, actions)
  {
    RunsAreLegal(s0, actions);
    LegalRunIff(s0, actions);
  }

  lemma {:induction false} LegalRunIff(s0: State, actions: seq<Action>)
    ensures LegalRun(s0, actions) <==>
            && OfThreads(s0, actions) && LegalPrograms(s0, actions)
            && LocksWhileFree(actions) && RepliesReadOut(s0, actions)
    decreases |actions|
  {
    if actions != [] {
      hide *;
      var prefix, a := actions[..|actions| - 1], actions[|actions| - 1];
      assert actions == prefix + [a];
      LegalRunIff(s0, prefix);
      LegalRunSnoc(s0, prefix, a);
      ThreadsSnoc(s0, prefix, a);
      if a.t < |s0.threads| {
        ProgramsSnoc(s0, prefix, a);
      }
    }
  }

  lemma LegalRunSnoc(s0: State, prefix: seq<Action>, a: Action)
    ensures LegalRun(s0, prefix + [a]) <==>
            && LegalRun(s0, prefix) && a.t < |s0.threads|
            && Legal(s0.threads[a.t].inbox, Told(OnThread(prefix, a.t)), a)
            && (a.Lock? ==> MutexFree(prefix)) && DeviceAllows(s0, prefix, a)
    ensures LocksWhileFree(prefix + [a]) <==> LocksWhileFree(prefix) && (a.Lock? ==> MutexFree(prefix))
    ensures RepliesReadOut(s0, prefix + [a]) <==> RepliesReadOut(s0, prefix) && DeviceAllows(s0, prefix, a)
  {
    hide Legal, AsDeviceSays, DevAfter, Told, MutexFree, OnThread;
    assert (prefix + [a])[..|prefix|] == prefix;
  }

  lemma ThreadsSnoc(s0: State, prefix: seq<Action>, a: Action)
    ensures OfThreads(s0, prefix + [a]) <==> OfThreads(s0, prefix) && a.t < |s0.threads|
  {
    if OfThreads(s0, prefix + [a]) {
      assert (prefix + [a])[|prefix|] == a;
      assert forall i :: 0 <= i < |prefix| ==> prefix[i] == (prefix + [a])[i];
    }
  }

  lemma ProgramsSnoc(s0: State, prefix: seq<Action>, a: Action)
    requires a.t < |s0.threads|
    ensures LegalPrograms(s0, prefix + [a]) <==>
            LegalPrograms(s0, prefix) && Legal(s0.threads[a.t].inbox, Told(OnThread(prefix, a.t)), a)
  {
    hide Legal, Told;
    var program := OnThread(prefix, a.t);
    assert (prefix + [a])[..|prefix|] == prefix && (program + [a])[..|program|] == program;
    assert OnThread(prefix + [a], a.t) == program + [a];
    forall t | 0 <= t < |s0.threads| && t != a.t
      ensures OnThread(prefix + [a], t) == OnThread(prefix, t)
    {
    }
  }

  // ---------- what the programs are ----------

  /** A legal program, with what it comes to. */
  ghost predicate Reaches(inbox: seq<Bytes>, program: seq<Action>, h: History) {
    LegalProgram(inbox, program) && Told(program) == h
  }

  lemma OneMoreAction(inbox: seq<Bytes>, program: seq<Action>, h: History, a: Action)
    requires Reaches(inbox, program, h) && Legal(inbox, h, a)
    ensures Reaches(inbox, program + [a], Then(h, a))
  {
    assert (program + [a])[..|program|] == program;
    hide Legal;
  }

  function Sum(sizes: seq<nat>): nat {
    if sizes == [] then 0 else Sum(sizes[..|sizes| - 1]) + sizes[|sizes| - 1]
  }

  /** Writes of these sizes, one after the other. */
  function Writes(t: nat, sizes: seq<nat>): seq<Action> {
    seq(|sizes|, i requires 0 <= i < |sizes| => WriteSome(t, sizes[i]))
  }

  function Reads(t: nat, n: nat): seq<Action> {
    seq(n, _ => ReadSome(t))
  }

  lemma SeriesSnoc(program: seq<Action>, t: nat, sizes: seq<nat>, n: nat)
    ensures program + Writes(t, []) == program && program + Reads(t, 0) == program
    ensures sizes != [] ==>
              var k := |sizes| - 1;
              program + Writes(t, sizes) == program + Writes(t, sizes[..k]) + [WriteSome(t, sizes[k])]
    ensures n > 0 ==> program + Reads(t, n) == program + Reads(t, n - 1) + [ReadSome(t)]
  {
  }

  /** What a program comes to with writes of these sizes after it. */
  function AfterWrites(h: History, t: nat, sizes: seq<nat>): History {
    if sizes == [] then h
    else h.(written := h.written + Sum(sizes), last := Some(WriteSome(t, sizes[|sizes| - 1])))
  }

  /** The message may be written in any pieces. */
  lemma {:induction false} AnyPieces(inbox: seq<Bytes>, program: seq<Action>, h: History, t: nat, sizes: seq<nat>)
    requires Reaches(inbox, program, h) && 0 < h.received <= |inbox|
    requires h.last == Some(Lock(t)) && h.written == 0
    requires IsPlainText(inbox[h.received - 1]) && Sum(sizes) <= |Payload(inbox[h.received - 1])|
    requires forall i :: 0 <= i < |sizes| ==> sizes[i] > 0
    ensures Reaches(inbox, program + Writes(t, sizes), AfterWrites(h, t, sizes))
    decreases |sizes|
  {
    hide Decode, CString, Told, LegalProgram;
    SeriesSnoc(program, t, sizes, 0);
    if sizes != [] {
      var front, n := sizes[..|sizes| - 1], sizes[|sizes| - 1];
      AnyPieces(inbox, program, h, t, front);
      hide Payload, IsPlainText, Reaches, Writes;
      OneMoreAction(inbox, program + Writes(t, front), AfterWrites(h, t, front), WriteSome(t, n));
    }
  }

  /** And as many reads may follow as the reply takes. */
  lemma {:induction false} AnyReads(inbox: seq<Bytes>, program: seq<Action>, h: History, t: nat, n: nat)
    requires Reaches(inbox, program, h) && 0 < h.received <= |inbox| && MayReply(inbox[h.received - 1], h)
    ensures Reaches(inbox, program + Reads(t, n),
                    h.(fetched := h.fetched + n, last := if n == 0 then h.last else Some(ReadSome(t))))
  {
    hide Decode, CString, Told, LegalProgram;
    SeriesSnoc(program, t, [], n);
    if n > 0 {
      AnyReads(inbox, program, h, t, n - 1);
      hide Payload, IsPlainText, Reaches, Reads;
      var more := h.(fetched := h.fetched + n - 1, last := if n == 1 then h.last else Some(ReadSome(t)));
      OneMoreAction(inbox, program + Reads(t, n - 1), more, ReadSome(t));
    }
  }

  /** Receive a message, take the mutex, write it in these pieces or seek, read so often, give the mutex back. */
  function Service(t: nat, message: Bytes, sizes: seq<nat>, n: nat): seq<Action> {
    [Receive(t)] + [Lock(t)] + (if IsPlainText(message) then Writes(t, sizes) else [DoSeek(t)])
    + Reads(t, n) + [Unlock(t)]
  }

  /** Between two messages. */
  predicate Between(h: History) {
    h.last == None || h.last.value.Unlock? || h.last.value.OpenFails?
  }

  /** A thread between two messages may serve the next one in any pieces and reads, or fail to open the device. */
  lemma ServiceIsLegal(inbox: seq<Bytes>, program: seq<Action>, t: nat, sizes: seq<nat>, n: nat)
    requires LegalProgram(inbox, program) && Between(Told(program)) && Told(program).received < |inbox|
    requires forall i :: 0 <= i < |sizes| ==> sizes[i] > 0
    requires n > 0 && Sum(sizes) == |Payload(inbox[Told(program).received])|
    ensures var next := program + Service(t, inbox[Told(program).received], sizes, n);
            LegalProgram(inbox, next) && Between(Told(next))
    ensures var next := program + [Receive(t)] + [OpenFails(t)]; LegalProgram(inbox, next) && Between(Told(next))
  {
    hide Decode, CString, Payload, LegalProgram, Told, Sum;
    var h := Told(program);
    var received := Then(h, Receive(t));
    assert Reaches(inbox, program, h);
    OneMoreAction(inbox, program, h, Receive(t));
    OneMoreAction(inbox, program + [Receive(t)], received, OpenFails(t));
    OneMoreAction(inbox, program + [Receive(t)], received, Lock(t));
    var inside, locked := program + [Receive(t)] + [Lock(t)], Then(received, Lock(t));
    var end;
    if IsPlainText(inbox[h.received]) {
      end := WriteAll(inbox, inside, locked, t, sizes, n);
    } else {
      end := SeekAndRead(inbox, inside, locked, t, n);
    }
    hide Reaches, Writes, Reads;
    InService(program, t, inbox[h.received], sizes, n);
    assert Reaches(inbox, program + Service(t, inbox[h.received], sizes, n), end);
    assert Between(end);
    assert Reaches(inbox, program + [Receive(t)] + [OpenFails(t)], Then(received, OpenFails(t)));
    ReachedBetween(inbox, program + Service(t, inbox[h.received], sizes, n), end);
    ReachedBetween(inbox, program + [Receive(t)] + [OpenFails(t)], Then(received, OpenFails(t)));
  }

  lemma ReachedBetween(inbox: seq<Bytes>, program: seq<Action>, h: History)
    requires Reaches(inbox, program, h) && Between(h)
    ensures LegalProgram(inbox, program) && Between(Told(program))
  {
  }

  lemma InService(program: seq<Action>, t: nat, message: Bytes, sizes: seq<nat>, n: nat)
    ensures program + Service(t, message, sizes, n) ==
            program + [Receive(t)] + [Lock(t)] + (if IsPlainText(message) then Writes(t, sizes) else [DoSeek(t)])
            + Reads(t, n) + [Unlock(t)]
  {
    hide Writes, Reads, IsPlainText;
  }

  lemma WriteAll(inbox: seq<Bytes>, program: seq<Action>, h: History, t: nat, sizes: seq<nat>, n: nat)
    returns (end: History)
    requires Reaches(inbox, program, h) && 0 < h.received <= |inbox|
    requires h.last == Some(Lock(t)) && h.written == 0 && n > 0
    requires IsPlainText(inbox[h.received - 1]) && Sum(sizes) == |Payload(inbox[h.received - 1])|
    requires forall i :: 0 <= i < |sizes| ==> sizes[i] > 0
    ensures Reaches(inbox, program + Writes(t, sizes) + Reads(t, n) + [Unlock(t)], end) && end.last == Some(Unlock(t))
  {
    hide Decode, CString, Payload, IsPlainText, Reaches, Reads, Writes, Sum;
    AnyPieces(inbox, program, h, t, sizes);
    NotEmpty(inbox[h.received - 1], sizes);
    end := ReadAndUnlock(inbox, program + Writes(t, sizes), AfterWrites(h, t, sizes), t, n);
  }

  lemma SeekAndRead(inbox: seq<Bytes>, program: seq<Action>, h: History, t: nat, n: nat) returns (end: History)
    requires Reaches(inbox, program, h) && 0 < h.received <= |inbox|
    requires h.last == Some(Lock(t)) && !IsPlainText(inbox[h.received - 1]) && n > 0
    ensures Reaches(inbox, program + [DoSeek(t)] + Reads(t, n) + [Unlock(t)], end) && end.last == Some(Unlock(t))
  {
    hide Decode, CString, Payload, IsPlainText, Reaches, Reads;
    OneMoreAction(inbox, program, h, DoSeek(t));
    end := ReadAndUnlock(inbox, program + [DoSeek(t)], Then(h, DoSeek(t)), t, n);
  }

  lemma ReadAndUnlock(inbox: seq<Bytes>, program: seq<Action>, h: History, t: nat, n: nat) returns (end: History)
    requires Reaches(inbox, program, h) && 0 < h.received <= |inbox| && MayReply(inbox[h.received - 1], h) && n > 0
    ensures Reaches(inbox, program + Reads(t, n) + [Unlock(t)], end) && end.last == Some(Unlock(t))
  {
    hide Decode, CString, Payload, IsPlainText, Reaches, Reads;
    AnyReads(inbox, program, h, t, n);
    var more := h.(fetched := h.fetched + n, last := Some(ReadSome(t)));
    OneMoreAction(inbox, program + Reads(t, n), more, Unlock(t));
    end := Then(more, Unlock(t));
  }

  lemma NotEmpty(message: Bytes, sizes: seq<nat>)
    requires Sum(sizes) == |Payload(message)|
    ensures sizes != []
  {
  }

  // ---------- independence ----------

  /**
    No action of one thread changes what another may do next, but for the mutex: taking it
    keeps the others from taking it, and giving it back lets them.
   */
  lemma Independent(s0: State, s: State, a: Action, b: Action)
    requires Inv(s0, s) && Enabled(s, a) && a.t != b.t
    ensures !b.Lock? || !(a.Lock? || a.Unlock?) ==> (Enabled(Step(s, a), b) <==> Enabled(s, b))
    ensures b.Lock? && a.Lock? ==> !Enabled(Step(s, a), b)
    ensures b.Lock? && a.Unlock? ==>
              (Enabled(Step(s, a), b) <==> b.t < |s.threads| && s.threads[b.t].phase.Waiting?)
  {
    StepTouches(s, a);
    if a.WriteSome? && b.t < |s.threads| {
      OthersAreOutside(s0, s, a, b.t);
    }
    hide Inv, Step;
    if a.Lock? || a.Unlock? {
      assert b.Lock? ==> (Enabled(s, b) <==> b.t < |s.threads| && s.threads[b.t].phase.Waiting? && s.mutex == None);
    }
    if !b.Lock? || !(a.Lock? || a.Unlock?) {
      SameEnabled(s, Step(s, a), b);
    }
    assert a.Lock? ==> s.mutex == None;
    hide Phase.HoldsMutex;
  }

  /** What an action needs: its thread, for taking the mutex the mutex, and for a reply the device. */
  lemma SameEnabled(s: State, s': State, b: Action)
    requires |s'.threads| == |s.threads| && (b.t < |s.threads| ==> s'.threads[b.t] == s.threads[b.t])
    requires b.Lock? ==> s'.mutex == s.mutex
    requires b.t < |s.threads| && s.threads[b.t].phase.HoldsMutex() ==> s'.dev == s.dev
    ensures Enabled(s', b) <==> Enabled(s, b)
  {
    hide ReadAt;
  }

  /** The bytes that a reply has in the end are those that its reads returned. */
  lemma ReplyIsWhatWasRead(s0: State, actions: seq<Action>, t: nat)
    requires Initial(s0) && CanRun(s0, actions + [Unlock(t)])
    ensures var h, log := Told(OnThread(actions, t)), Run(s0, actions + [Unlock(t)]).log;
            && t < |s0.threads| && 0 < h.received <= |s0.threads[t].inbox| && log != []
            && var e, message := log[|log| - 1], s0.threads[t].inbox[h.received - 1];
               && e.Served? && e.thread == t && e.message == message
               && |e.reply| == BytesRead(DevAfter(s0, actions).lines, message, h.fetched)
  {
    hide *;
    RunSnoc(s0, actions, Unlock(t));
    RunsAreLegal(s0, actions);
    UnlockLogs(s0, actions, Run(s0, actions), t);
  }

  lemma UnlockLogs(s0: State, actions: seq<Action>, s: State, t: nat)
    requires Agrees(s0, actions, s) && Enabled(s, Unlock(t))
    ensures var h, log := Told(OnThread(actions, t)), Step(s, Unlock(t)).log;
            && t < |s0.threads| && 0 < h.received <= |s0.threads[t].inbox| && log != []
            && var e, message := log[|log| - 1], s0.threads[t].inbox[h.received - 1];
               && e.Served? && e.thread == t && e.message == message
               && |e.reply| == BytesRead(DevAfter(s0, actions).lines, message, h.fetched)
  {
    UnlockAdds(s, t);
    var inbox, h := s0.threads[t].inbox, Told(OnThread(actions, t));
    assert ThreadAgrees(inbox, h, s.threads[t], s.dev.lines);
    hide *;
    FinishedAgrees(inbox, h, s.threads[t], s.dev.lines);
  }

  lemma FinishedAgrees(inbox: seq<Bytes>, h: History, thread: Thread, lines: seq<Bytes>)
    requires ThreadAgrees(inbox, h, thread, lines) && thread.phase.Finished?
    ensures 0 < h.received <= |inbox| && thread.phase.message == inbox[h.received - 1]
    ensures |thread.phase.sent| == BytesRead(lines, thread.phase.message, h.fetched)
  {
    hide BytesRead, MayEnd, IsOver;
  }

  lemma UnlockAdds(s: State, t: nat)
    requires Enabled(s, Unlock(t))
    ensures var phase := s.threads[t].phase;
            && phase.Finished?
            && Step(s, Unlock(t)).log == s.log + [Served(t, phase.message, phase.written, phase.sent, phase.cut)]
  {
  }
}
