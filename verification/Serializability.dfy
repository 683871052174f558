/** The main results about the server: what every run of `Protocol` comes to. */
module Serializability {
  import opened ByteStrings
  import opened CircularBuffers
  import opened DeviceSpec
  import opened SeekCommand
  import opened Protocol
  import opened Fates

  /** At most one thread is between taking the mutex and giving it back. */
  ghost predicate MutuallyExclusive(s: State) {
    forall t, u :: 0 <= t < |s.threads| && 0 <= u < |s.threads| ==>
      s.threads[t].phase.HoldsMutex() && s.threads[u].phase.HoldsMutex() ==> t == u
  }

  /**
    Every run, whatever the interleaving and whatever fails, is explained by its log: replies
    are those of handling the logged messages one at a time; whenever the mutex is free the
    device is just what that leaves; at most one thread is inside; and each thread's messages
    are logged in the order of its connection.  How much of a message was written, and whether
    its reply is complete, is what the actions that were taken for it say.
   */
  lemma Serializable(s0: State, actions: seq<Action>)
    requires Initial(s0) && CanRun(s0, actions)
    ensures var s := Run(s0, actions);
            && Explained(s0.dev, s.log)
            && (s.mutex == None ==> s.dev == SerialDev(s0.dev, s.log))
            && InOrder(s0, s)
            && MutuallyExclusive(s)
            && |s.log| == |FatesOf(actions)|
            && forall k :: 0 <= k < |s.log| ==> Matches(s.log[k], FatesOf(actions)[k])
  {
    InitialInv(s0);
    RunKeepsInv(s0, s0, actions);
    LogMatchesFates(s0, actions);
    hide FatesOf, Matches, Explained, InOrder, Progress, NewlineFree, SerialDev, CanRun, Run, Initial;
  }

  // ---------- lock order ----------

  /** The threads in the order in which a run takes the mutex. */
  function LockOrder(actions: seq<Action>): seq<nat> {
    if actions == [] then []
    else (if actions[0].Lock? then [actions[0].t] else []) + LockOrder(actions[1..])
  }

  /** The threads whose messages the log shows as served, in order. */
  function ServedOrder(log: seq<LogEntry>): seq<nat> {
    if log == [] then []
    else
      var last := log[|log| - 1];
      ServedOrder(log[..|log| - 1]) + if last.Served? then [last.thread] else []
  }

  function HolderOf(s: State): seq<nat> {
    if s.mutex.Some? then [s.mutex.value] else []
  }

  lemma ServedOrderSnoc(log: seq<LogEntry>, e: LogEntry)
    ensures ServedOrder(log + [e]) == ServedOrder(log) + if e.Served? then [e.thread] else []
  {
    assert (log + [e])[..|log|] == log;
  }

  /** What a step does to the mutex and the log. */
  lemma StepOnMutex(s: State, a: Action)
    requires Enabled(s, a)
    ensures var s' := Step(s, a);
            match a
            case Lock(t) => s'.mutex == Some(t) && s.mutex == None && s'.log == s.log
            case Unlock(t) =>
              s'.mutex == None && |s'.log| == |s.log| + 1 && s'.log[..|s.log|] == s.log
              && s'.log[|s.log|].Served? && s'.log[|s.log|].thread == t && s.threads[t].phase.HoldsMutex()
            case OpenFails(t) =>
              s'.mutex == s.mutex && |s'.log| == |s.log| + 1 && s'.log[..|s.log|] == s.log && s'.log[|s.log|].Dropped?
            case _ => s'.mutex == s.mutex && s'.log == s.log
  {
    hide ReadAt, Decode, CString, Accept, SeekTo, Payload;
  }

  lemma StepKeepsLockOrder(s0: State, s: State, a: Action)
    requires Inv(s0, s) && Enabled(s, a)
    ensures var s' := Step(s, a);
            ServedOrder(s'.log) + HolderOf(s') ==
            ServedOrder(s.log) + HolderOf(s) + if a.Lock? then [a.t] else []
  {
    StepOnMutex(s, a);
    if a.Unlock? {
      hide Explained, InOrder, NewlineFree, Step, Enabled, Progress;
      OnlyTheHolder(s, SerialDev(s0.dev, s.log), a.t);
    }
    hide *;
    LockOrderArithmetic(s, Step(s, a), a);
  }

  lemma LockOrderArithmetic(s: State, s': State, a: Action)
    requires match a
             case Lock(t) => s'.mutex == Some(t) && s.mutex == None && s'.log == s.log
             case Unlock(t) =>
               s'.mutex == None && |s'.log| == |s.log| + 1 && s'.log[..|s.log|] == s.log
               && s'.log[|s.log|].Served? && s'.log[|s.log|].thread == t && s.mutex == Some(t)
             case OpenFails(t) =>
               s'.mutex == s.mutex && |s'.log| == |s.log| + 1 && s'.log[..|s.log|] == s.log && s'.log[|s.log|].Dropped?
             case _ => s'.mutex == s.mutex && s'.log == s.log
    ensures ServedOrder(s'.log) + HolderOf(s') ==
            ServedOrder(s.log) + HolderOf(s) + if a.Lock? then [a.t] else []
  {
    if a.Unlock? || a.OpenFails? {
      assert s'.log == s.log + [s'.log[|s.log|]];
      ServedOrderSnoc(s.log, s'.log[|s.log|]);
    }
    hide ServedOrder;
  }

  lemma {:induction false} RunKeepsLockOrder(s0: State, s: State, actions: seq<Action>)
    requires Inv(s0, s) && CanRun(s, actions)
    ensures var s' := Run(s, actions);
            ServedOrder(s'.log) + HolderOf(s') == ServedOrder(s.log) + HolderOf(s) + LockOrder(actions)
    decreases |actions|
  {
    hide Inv, Step, Enabled, ServedOrder, HolderOf;
    if actions != [] {
      StepKeepsInv(s0, s, actions[0]);
      StepKeepsLockOrder(s0, s, actions[0]);
      RunKeepsLockOrder(s0, Step(s, actions[0]), actions[1..]);
    }
  }

  /** The log serves the messages in the order in which the mutex was taken for them. */
  lemma LogIsInLockOrder(s0: State, actions: seq<Action>)
    requires Initial(s0) && CanRun(s0, actions)
    ensures var s := Run(s0, actions); ServedOrder(s.log) + HolderOf(s) == LockOrder(actions)
  {
    InitialInv(s0);
    RunKeepsLockOrder(s0, s0, actions);
    hide Run, CanRun, LockOrder;
    assert ServedOrder(s0.log) + HolderOf(s0) + LockOrder(actions) == LockOrder(actions);
  }

  // ---------- what the device holds ----------

  /** What the device took of a logged message: nothing unless it was served as a plain one. */
  function PartOf(e: LogEntry): Bytes {
    if e.Served? && Decode(CString(e.message)) == None then Written(e.message, e.written) else []
  }

  function Parts(log: seq<LogEntry>): seq<Bytes> {
    seq(|log|, k requires 0 <= k < |log| => PartOf(log[k]))
  }

  /** Handling one more message gives the device one more part. */
  lemma HandleIsAccept(d: Dev, e: LogEntry)
    requires !EndsInNewline(d.staging)
    ensures Accept(d, PartOf(e)) == if e.Served? then Handle(d, e.message, e.written).dev else d
  {
    hide Decode, Written, SeekTo, Rest, Flatten;
    assert d.staging + [] == d.staging;
  }

  lemma {:induction false} SerialIsAcceptAll(d: Dev, log: seq<LogEntry>)
    requires !EndsInNewline(d.staging)
    ensures SerialDev(d, log) == AcceptAll(d, Parts(log))
    ensures !EndsInNewline(SerialDev(d, log).staging)
    decreases |log|
  {
    if log != [] {
      hide Handle, PartOf, AcceptAll;
      var prefix, last := log[..|log| - 1], log[|log| - 1];
      SerialIsAcceptAll(d, prefix);
      AcceptAllSnoc(d, Parts(prefix), PartOf(last));
      assert Parts(log) == Parts(prefix) + [PartOf(last)];
      HandleIsAccept(SerialDev(d, prefix), last);
      if last.Served? {
        HandledStaging(SerialDev(d, prefix), last.message, last.written);
      }
    } else {
      assert Parts(log) == [];
    }
  }

  /**
    Handling a log leaves the last ten of the old lines and the log's lines, and stages its
    rest: the parts are cut into lines exactly after the messages that were written whole.
   */
  lemma SerialDevHoldsLines(d: Dev, log: seq<LogEntry>)
    requires d.staging == [] && |d.lines| <= 10
    ensures var g := Groups([], Parts(log));
            SerialDev(d, log) == Dev(LastN(10, d.lines + g.lines), g.rest)
  {
    SerialIsAcceptAll(d, log);
    DeviceHoldsLastGroups(d.lines, [], Parts(log));
  }

  /** With the mutex free, the device is the old lines and the groups of the log's parts, in log order. */
  lemma RingHoldsGroups(s0: State, actions: seq<Action>)
    requires Initial(s0) && CanRun(s0, actions)
    requires Run(s0, actions).mutex == None
    ensures var s := Run(s0, actions);
            var g := Groups([], Parts(s.log));
            s.dev == Dev(LastN(10, s0.dev.lines + g.lines), g.rest)
  {
    Serializable(s0, actions);
    SerialDevHoldsLines(s0.dev, Run(s0, actions).log);
  }

  // ---------- whose bytes they are ----------

  /** A part is the beginning of one message of one client, or all of it with its newline. */
  ghost predicate IsClientPart(s0: State, part: Bytes) {
    exists t, i, n ::
      0 <= t < |s0.threads| && 0 <= i < |s0.threads[t].inbox| && part == Written(s0.threads[t].inbox[i], n)
  }

  /** A line is the text of one message of one client, and its newline. */
  ghost predicate IsClientLine(s0: State, line: Bytes) {
    exists t, i :: 0 <= t < |s0.threads| && 0 <= i < |s0.threads[t].inbox| && line == Payload(s0.threads[t].inbox[i])
  }

  lemma {:induction false} LoggedIsOfItsThread(log: seq<LogEntry>, k: nat)
    requires k < |log|
    ensures log[k].message in MessagesOf(log, log[k].thread)
    decreases |log|
  {
    if k < |log| - 1 {
      var prefix := log[..|log| - 1];
      LoggedIsOfItsThread(prefix, k);
      assert prefix[k] == log[k];
    }
  }

  ghost predicate ThreadsKnown(s: State) {
    forall k :: 0 <= k < |s.log| ==> s.log[k].thread < |s.threads|
  }

  lemma {:induction false} RunKeepsThreadsKnown(s: State, actions: seq<Action>)
    requires ThreadsKnown(s) && CanRun(s, actions)
    ensures ThreadsKnown(Run(s, actions))
    decreases |actions|
  {
    if actions != [] {
      StepKeepsThreadsKnown(s, actions[0]);
      hide Step, Enabled, ThreadsKnown;
      RunKeepsThreadsKnown(Step(s, actions[0]), actions[1..]);
    }
  }

  lemma StepKeepsThreadsKnown(s: State, a: Action)
    requires ThreadsKnown(s) && Enabled(s, a)
    ensures ThreadsKnown(Step(s, a))
  {
    hide Accept, ReadAt, Decode, SeekTo, CString, Payload;
  }

  lemma SeenWasDelivered(s0: State, s: State, t: nat, message: Bytes) returns (j: nat)
    requires InOrder(s0, s) && t < |s.threads| && message in MessagesOf(s.log, t)
    ensures j < |s0.threads[t].inbox| && s0.threads[t].inbox[j] == message
  {
    hide MessagesOf;
    var seen, later := MessagesOf(s.log, t), s.threads[t].phase.InWork() + s.threads[t].inbox;
    assert seen + s.threads[t].phase.InWork() + s.threads[t].inbox == s0.threads[t].inbox;
    assert seen + later == seen + s.threads[t].phase.InWork() + s.threads[t].inbox;
    j :| 0 <= j < |seen| && seen[j] == message;
    assert (seen + later)[j] == message;
  }

  /** A logged message was delivered to its thread. */
  lemma LoggedWasDelivered(s0: State, actions: seq<Action>, k: nat) returns (t: nat, j: nat)
    requires Initial(s0) && CanRun(s0, actions) && k < |Run(s0, actions).log|
    ensures t < |s0.threads| && j < |s0.threads[t].inbox|
    ensures s0.threads[t].inbox[j] == Run(s0, actions).log[k].message
  {
    var s := Run(s0, actions);
    Serializable(s0, actions);
    RunKeepsThreadsKnown(s0, actions);
    LoggedIsOfItsThread(s.log, k);
    hide Run, CanRun, Initial, MessagesOf;
    t := s.log[k].thread;
    j := SeenWasDelivered(s0, s, t, s.log[k].message);
  }

  /** Every part of every run is one client's, and a whole part is one client's line. */
  lemma EveryPartIsAClients(s0: State, actions: seq<Action>, k: nat)
    requires Initial(s0) && CanRun(s0, actions)
    requires k < |Run(s0, actions).log|
    ensures var part := Parts(Run(s0, actions).log)[k];
            IsClientPart(s0, part) && (EndsInNewline(part) ==> IsClientLine(s0, part))
  {
    var e := Run(s0, actions).log[k];
    var t, j := LoggedWasDelivered(s0, actions, k);
    assert NEWLINE !in e.message;
    hide *;
    var n := PartIsWritten(e);
    PartOfOne(s0, t, j, PartOf(e), n);
    assert Parts(Run(s0, actions).log)[k] == PartOf(e) by {
      PartAt(Run(s0, actions).log, k);
    }
  }

  lemma PartAt(log: seq<LogEntry>, k: nat)
    requires k < |log|
    ensures |Parts(log)| == |log| && Parts(log)[k] == PartOf(log[k])
  {
  }

  lemma PartIsWritten(e: LogEntry) returns (n: nat)
    ensures PartOf(e) == Written(e.message, n)
  {
    hide Decode, CString, Payload;
    n := if PartOf(e) == [] then 0 else e.written;
    assert Payload(e.message)[..0] == [];
  }

  lemma PartOfOne(s0: State, t: nat, j: nat, part: Bytes, n: nat)
    requires t < |s0.threads| && j < |s0.threads[t].inbox| && part == Written(s0.threads[t].inbox[j], n)
    requires NEWLINE !in s0.threads[t].inbox[j]
    ensures IsClientPart(s0, part) && (EndsInNewline(part) ==> IsClientLine(s0, part))
  {
    var message := s0.threads[t].inbox[j];
    PayloadShape(message);
    hide CString, Payload;
    if n < |Payload(message)| {
      assert EndsInNewline(part) ==> NEWLINE in part;
    }
  }

  /**
    Over all runs, failed writes included: every committed line is the torn beginnings of the
    messages whose writes failed since the line before, and then one client's whole message.
   */
  lemma EveryLineIsPartsAndAMessage(s0: State, actions: seq<Action>, i: nat) returns (a: nat, b: nat)
    requires Initial(s0) && CanRun(s0, actions)
    requires i < |Groups([], Parts(Run(s0, actions).log)).lines|
    ensures var parts := Parts(Run(s0, actions).log);
            && a <= b < |parts|
            && Groups([], parts).lines[i] == Flatten(parts[a..b]) + parts[b]
            && IsClientLine(s0, parts[b])
            && (forall k :: a <= k < b ==> IsClientPart(s0, parts[k]) && !EndsInNewline(parts[k]))
            && (if i == 0 then a == 0 else a > 0 && EndsInNewline(parts[a - 1]))
  {
    var parts := Parts(Run(s0, actions).log);
    a, b := LineIsARun([], parts, i);
    EveryPartIsAClients(s0, actions, b);
    forall k | a <= k < b
      ensures IsClientPart(s0, parts[k])
    {
      EveryPartIsAClients(s0, actions, k);
    }
    hide *;
    LastOfRun(parts, a, b);
  }

  lemma LastOfRun(parts: seq<Bytes>, a: nat, b: nat)
    requires a <= b < |parts|
    ensures Flatten(parts[a..b + 1]) == Flatten(parts[a..b]) + parts[b]
    ensures [] + Flatten(parts[a..b + 1]) == Flatten(parts[a..b + 1])
  {
    assert parts[a..b + 1] == parts[a..b] + [parts[b]];
    FlattenSnoc(parts[a..b], parts[b]);
  }
}
