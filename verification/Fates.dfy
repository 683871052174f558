/**
  What becomes of each message, told by the actions of a run alone: which were dropped, how
  many bytes of each were written, and what failed for it.  The log of every run says the
  same, so the results here have their conditions on the actions that were taken.
 */
module Fates {
  import opened ByteStrings
  import opened DeviceSpec
  import opened SeekCommand
  import opened Protocol

  datatype Fate = Fate(dropped: bool, bytes: nat, writeFailed: bool, replyFailed: bool)
  {
    /** Something failed for the message. */
    predicate Failed() {
      dropped || writeFailed || replyFailed
    }

    /** A write failed after the first byte, and so before the last. */
    predicate LeftTorn() {
      writeFailed && bytes > 0
    }

    /** All of the message was written. */
    predicate LeftWhole() {
      !writeFailed && bytes > 0
    }
  }

  const CLEAN := Fate(false, 0, false, false)
  const DROPPED := Fate(true, 0, false, false)

  /** What an action does to the message that is at work; none is after the mutex is given back. */
  function Note(f: Fate, a: Action): Fate {
    match a
    case WriteSome(_, n) => f.(bytes := f.bytes + n)
    case WriteFails(_, noticed) => f.(writeFailed := true, replyFailed := f.replyFailed || noticed)
    case SeekFails(_) => f.(replyFailed := true)
    case ReplyFails(_) => f.(replyFailed := true)
    case Unlock(_) => CLEAN
    case _ => f
  }

  /** The fate of the message that an action is the end of. */
  function Ended(f: Fate, a: Action): seq<Fate> {
    match a
    case OpenFails(_) => [DROPPED]
    case Unlock(_) => [f]
    case _ => []
  }

  /** The fates of the messages that the actions end, when there is `f` to say of the one at work. */
  function FatesFrom(f: Fate, actions: seq<Action>): seq<Fate>
    decreases |actions|
  {
    if actions == [] then [] else Ended(f, actions[0]) + FatesFrom(Note(f, actions[0]), actions[1..])
  }

  /** What there is to say in the end of the message that is then at work. */
  function Pending(f: Fate, actions: seq<Action>): Fate
    decreases |actions|
  {
    if actions == [] then f else Pending(Note(f, actions[0]), actions[1..])
  }

  function FatesOf(actions: seq<Action>): seq<Fate> {
    FatesFrom(CLEAN, actions)
  }

  // ---------- the log follows from the actions ----------

  /** A message of which `written` bytes are accounted for, against its fate. */
  ghost predicate Wrote(message: Bytes, written: nat, f: Fate) {
    && !f.dropped && written == f.bytes
    && if Decode(CString(message)) == None
       then written <= |Payload(message)| && (f.writeFailed <==> written < |Payload(message)|)
       else written == 0 && !f.writeFailed
  }

  /** A log entry is what the fate says: written so far, and cut exactly when the reply failed. */
  ghost predicate Matches(e: LogEntry, f: Fate) {
    match e
    case Dropped(_, _) => f == DROPPED
    case Served(_, message, written, _, cut) => Wrote(message, written, f) && cut == f.replyFailed
  }

  ghost predicate PhaseMatches(phase: Phase, f: Fate) {
    match phase
    case Writing(message, todo) =>
      && Decode(CString(message)) == None && todo != [] && |todo| <= |Payload(message)|
      && f == Fate(false, WrittenSoFar(message, todo), false, false)
    case Seeking(message, _) => Decode(CString(message)) != None && f == CLEAN
    case Sending(message, written, _, _) => Wrote(message, written, f) && !f.replyFailed
    case Finished(message, written, _, cut) => Wrote(message, written, f) && cut == f.replyFailed
    case _ => false
  }

  /** The holder of the mutex is as far as the fate of its message says. */
  ghost predicate HolderMatches(s: State, f: Fate) {
    if s.mutex.Some? then s.mutex.value < |s.threads| && PhaseMatches(s.threads[s.mutex.value].phase, f) else f == CLEAN
  }

  /** A thread outside leaves the holder alone. */
  lemma OutsideKeepsFate(s: State, f: Fate, a: Action)
    requires HolderMatches(s, f) && Enabled(s, a)
    requires a.Receive? || a.OpenFails?
    ensures HolderMatches(Step(s, a), f)
  {
    hide Decode, CString, Payload, Wrote;
  }

  lemma LockKeepsFate(s: State, f: Fate, a: Action)
    requires HolderMatches(s, f) && Enabled(s, a) && a.Lock?
    ensures HolderMatches(Step(s, a), f)
  {
    hide Decode, CString;
  }

  lemma InsideKeepsFate(s: State, f: Fate, a: Action)
    requires HolderMatches(s, f) && Enabled(s, a) && s.mutex == Some(a.t)
    requires a.WriteSome? || a.WriteFails? || a.DoSeek? || a.SeekFails? || a.ReadSome? || a.ReplyFails?
    ensures HolderMatches(Step(s, a), Note(f, a))
  {
    hide Decode, CString, Payload, ReadAt, Accept, SeekTo;
  }

  lemma HolderIsInside(s0: State, s: State, t: nat)
    requires Inv(s0, s) && t < |s.threads| && s.threads[t].phase.HoldsMutex()
    ensures s.mutex == Some(t)
  {
    OnlyTheHolder(s, SerialDev(s0.dev, s.log), t);
  }

  /** The entries of `log` from place `n` on match these fates one by one. */
  ghost predicate AllMatch(log: seq<LogEntry>, n: nat, fates: seq<Fate>) {
    && |log| == n + |fates|
    && forall k :: n <= k < |log| ==> Matches(log[k], fates[k - n])
  }

  lemma MatchesAppend(log: seq<LogEntry>, middle: seq<LogEntry>, n: nat, a: seq<Fate>, b: seq<Fate>)
    requires AllMatch(middle, n, a) && middle <= log && AllMatch(log, |middle|, b)
    ensures AllMatch(log, n, a + b)
  {
    hide Matches;
    forall k | n <= k < |log|
      ensures Matches(log[k], (a + b)[k - n])
    {
      if k < |middle| {
        assert log[k] == middle[k];
      }
    }
  }

  /** What a step adds to the log matches the fate that it ends. */
  lemma StepMatches(s0: State, s: State, f: Fate, a: Action)
    requires Inv(s0, s) && HolderMatches(s, f) && Enabled(s, a)
    ensures HolderMatches(Step(s, a), Note(f, a))
    ensures s.log <= Step(s, a).log && AllMatch(Step(s, a).log, |s.log|, Ended(f, a))
  {
    hide Decode, CString, Payload, ReadAt, Accept, SeekTo, Wrote, Inv;
    if s.threads[a.t].phase.HoldsMutex() {
      HolderIsInside(s0, s, a.t);
    }
    if a.Receive? || a.OpenFails? {
      OutsideKeepsFate(s, f, a);
    } else if a.Lock? {
      LockKeepsFate(s, f, a);
    } else if !a.Unlock? {
      InsideKeepsFate(s, f, a);
    }
  }

  lemma {:induction false} RunMatches(s0: State, s: State, f: Fate, actions: seq<Action>)
    requires Inv(s0, s) && HolderMatches(s, f) && CanRun(s, actions)
    ensures HolderMatches(Run(s, actions), Pending(f, actions))
    ensures s.log <= Run(s, actions).log && AllMatch(Run(s, actions).log, |s.log|, FatesFrom(f, actions))
    decreases |actions|
  {
    hide Inv, HolderMatches, Step, Enabled, AllMatch, Note;
    if actions != [] {
      var a, s' := actions[0], Step(s, actions[0]);
      StepKeepsInv(s0, s, a);
      StepMatches(s0, s, f, a);
      RunMatches(s0, s', Note(f, a), actions[1..]);
      MatchesAppend(Run(s, actions).log, s'.log, |s.log|, Ended(f, a), FatesFrom(Note(f, a), actions[1..]));
    } else {
      NoneToMatch(s.log);
    }
  }

  lemma NoneToMatch(log: seq<LogEntry>)
    ensures AllMatch(log, |log|, [])
  {
  }

  /** In every run the log and the actions say the same of every message. */
  lemma LogMatchesFates(s0: State, actions: seq<Action>)
    requires Initial(s0) && CanRun(s0, actions)
    ensures var log, fates := Run(s0, actions).log, FatesOf(actions);
            |log| == |fates| && forall k :: 0 <= k < |log| ==> Matches(log[k], fates[k])
  {
    InitialInv(s0);
    RunMatches(s0, s0, CLEAN, actions);
    hide Run, CanRun, Matches, FatesFrom;
  }

  // ---------- when nothing fails ----------

  ghost predicate NoneFails(actions: seq<Action>) {
    forall i :: 0 <= i < |actions| ==> !actions[i].Fails()
  }

  ghost predicate NoWriteFails(actions: seq<Action>) {
    forall i :: 0 <= i < |actions| ==> !actions[i].WriteFails?
  }

  /** Served, all of it written, and all of the reply sent. */
  predicate Fulfilled(e: LogEntry) {
    && e.Served? && !e.cut
    && (Decode(CString(e.message)) == None ==> e.written == |Payload(e.message)|)
  }

  lemma FulfilledIff(e: LogEntry, f: Fate)
    requires Matches(e, f)
    ensures Fulfilled(e) <==> !f.Failed()
  {
    hide Decode, CString, Payload;
  }

  ghost predicate NoneFailed(fates: seq<Fate>) {
    forall k :: 0 <= k < |fates| ==> !fates[k].Failed()
  }

  lemma NoneFailedAppend(a: seq<Fate>, b: seq<Fate>)
    ensures NoneFailed(a + b) <==> NoneFailed(a) && NoneFailed(b)
  {
    if NoneFailed(a + b) {
      assert forall k :: 0 <= k < |a| ==> (a + b)[k] == a[k];
      assert forall k :: 0 <= k < |b| ==> (a + b)[|a| + k] == b[k];
    }
  }

  /** No action fails exactly when no fate is a failed one, that of the message at work included. */
  lemma {:induction false} NoneFailsIff(f: Fate, actions: seq<Action>)
    requires !f.dropped
    ensures NoneFails(actions) && !f.Failed() <==> NoneFailed(FatesFrom(f, actions)) && !Pending(f, actions).Failed()
    decreases |actions|
  {
    if actions != [] {
      var a, f' := actions[0], Note(f, actions[0]);
      NoneFailsIff(f', actions[1..]);
      NoneFailedAppend(Ended(f, a), FatesFrom(f', actions[1..]));
      assert NoneFails(actions) <==> !a.Fails() && NoneFails(actions[1..]) by {
        assert forall i :: 0 < i < |actions| ==> actions[i] == actions[1..][i - 1];
      }
    }
  }

  ghost predicate NoneShort(fates: seq<Fate>) {
    forall k :: 0 <= k < |fates| ==> !fates[k].writeFailed
  }

  lemma NoneShortAppend(a: seq<Fate>, b: seq<Fate>)
    ensures NoneShort(a + b) <==> NoneShort(a) && NoneShort(b)
  {
    if NoneShort(a + b) {
      assert forall k :: 0 <= k < |a| ==> (a + b)[k] == a[k];
      assert forall k :: 0 <= k < |b| ==> (a + b)[|a| + k] == b[k];
    }
  }

  /** No write fails exactly when no fate has a failed write. */
  lemma {:induction false} NoWriteFailsIff(f: Fate, actions: seq<Action>)
    ensures NoWriteFails(actions) && !f.writeFailed <==>
            NoneShort(FatesFrom(f, actions)) && !Pending(f, actions).writeFailed
    decreases |actions|
  {
    if actions != [] {
      var a, f' := actions[0], Note(f, actions[0]);
      NoWriteFailsIff(f', actions[1..]);
      NoneShortAppend(Ended(f, a), FatesFrom(f', actions[1..]));
      assert a.Unlock? ==> Ended(f, a)[0] == f;
      assert NoWriteFails(actions) <==> !a.WriteFails? && NoWriteFails(actions[1..]) by {
        assert forall i :: 0 < i < |actions| ==> actions[i] == actions[1..][i - 1];
      }
    }
  }

  /** In a run without failing actions every message is served whole, and its reply is complete. */
  lemma AllFulfilledIff(s0: State, actions: seq<Action>)
    requires Initial(s0) && CanRun(s0, actions)
    ensures var s := Run(s0, actions);
            && (NoneFails(actions) ==> forall k :: 0 <= k < |s.log| ==> Fulfilled(s.log[k]))
            && (s.mutex == None ==> (NoneFails(actions) <==> forall k :: 0 <= k < |s.log| ==> Fulfilled(s.log[k])))
  {
    var s, fates := Run(s0, actions), FatesOf(actions);
    LogMatchesFates(s0, actions);
    InitialInv(s0);
    RunMatches(s0, s0, CLEAN, actions);
    hide Run, CanRun, Initial, Matches, Fulfilled, NoneFails;
    NoneFailsIff(CLEAN, actions);
    forall k | 0 <= k < |s.log|
      ensures Fulfilled(s.log[k]) <==> !fates[k].Failed()
    {
      FulfilledIff(s.log[k], fates[k]);
    }
  }
}
