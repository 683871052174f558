/** The server always gets to rest, and from wherever it is it can get there without a failure. */
module Completion {
  import opened ByteStrings
  import opened DeviceSpec
  import opened SeekCommand
  import opened Framing
  import opened Protocol
  import opened Fates
  import opened Serializability

  ghost predicate AtRest(s: State) {
    forall t :: 0 <= t < |s.threads| ==> s.threads[t].phase == Idle && s.threads[t].inbox == []
  }

  /** Unless all is done, some thread can move, and nothing need fail for it: the mutex never blocks everyone. */
  lemma NoDeadlock(s0: State, s: State) returns (a: Action)
    requires Inv(s0, s) && !AtRest(s)
    ensures Enabled(s, a) && !a.Fails()
  {
    WhoIsInside(s, SerialDev(s0.dev, s.log));
    if s.mutex.Some? {
      hide Inv, AtRest;
      a := HolderCanMove(s, s.mutex.value);
    } else {
      hide Inv, Enabled;
      var t :| 0 <= t < |s.threads| && !(s.threads[t].phase == Idle && s.threads[t].inbox == []);
      a := OutsiderCanMove(s, t);
    }
  }

  lemma HolderCanMove(s: State, t: nat) returns (a: Action)
    requires t < |s.threads| && s.threads[t].phase.HoldsMutex()
    requires s.threads[t].phase.Writing? ==> s.threads[t].phase.todo != []
    ensures Enabled(s, a) && !a.Fails()
  {
    match s.threads[t].phase
    case Writing(_, todo) => a := WriteSome(t, |todo|);
    case Seeking(_, _) => a := DoSeek(t);
    case Sending(_, _, _, _) => a := ReadSome(t);
    case _ => a := Unlock(t);
  }

  lemma OutsiderCanMove(s: State, t: nat) returns (a: Action)
    requires t < |s.threads| && s.mutex == None && !s.threads[t].phase.HoldsMutex()
    requires !(s.threads[t].phase == Idle && s.threads[t].inbox == [])
    ensures Enabled(s, a) && !a.Fails()
  {
    a := if s.threads[t].phase.Idle? then Receive(t) else Lock(t);
  }

  lemma WhoIsInside(s: State, before: Dev)
    requires Exclusion(s, before)
    ensures s.mutex.Some? ==>
              && s.mutex.value < |s.threads|
              && var phase := s.threads[s.mutex.value].phase;
                 phase.HoldsMutex() && (phase.Writing? ==> phase.todo != [])
    ensures s.mutex.None? ==> forall t :: 0 <= t < |s.threads| ==> !s.threads[t].phase.HoldsMutex()
  {
    hide Decode, Handle, CString, Rest;
  }

  /** How many stages a thread has before it. */
  function StagesLeft(thread: Thread): nat {
    5 * |thread.inbox| +
    match thread.phase
    case Idle => 0
    case Waiting(_) => 4
    case Writing(_, _) => 3
    case Seeking(_, _) => 3
    case Sending(_, _, _, _) => 2
    case Finished(_, _, _, _) => 1
  }

  function AllStagesLeft(threads: seq<Thread>): nat {
    if threads == [] then 0 else StagesLeft(threads[0]) + AllStagesLeft(threads[1..])
  }

  /** How many bytes a stage has before it, at most. */
  function BytesLeft(dev: Dev, phase: Phase): nat {
    match phase
    case Writing(_, todo) => |todo|
    case Sending(_, _, pos, _) => |Rest(dev.lines, pos)|
    case _ => 0
  }

  /** How many bytes the holder of the mutex has before it in its stage. */
  function HolderBytes(s: State): nat {
    if s.mutex.Some? && s.mutex.value < |s.threads| then BytesLeft(s.dev, s.threads[s.mutex.value].phase) else 0
  }

  lemma {:induction false} StagesAfterUpdate(threads: seq<Thread>, t: nat, thread: Thread)
    requires t < |threads|
    ensures AllStagesLeft(threads[t := thread]) == AllStagesLeft(threads) - StagesLeft(threads[t]) + StagesLeft(thread)
    decreases |threads|
  {
    hide StagesLeft;
    if t == 0 {
      assert threads[0 := thread][1..] == threads[1..];
    } else {
      assert threads[t := thread][1..] == threads[1..][t - 1 := thread];
      StagesAfterUpdate(threads[1..], t - 1, thread);
    }
  }

  /**
    Every step brings the server closer to rest: there are fewer stages left, or as many and
    fewer bytes for the holder of the mutex.
   */
  lemma StepDecreases(s0: State, s: State, a: Action)
    requires Inv(s0, s) && Enabled(s, a)
    ensures var s' := Step(s, a);
            || AllStagesLeft(s'.threads) < AllStagesLeft(s.threads)
            || (AllStagesLeft(s'.threads) == AllStagesLeft(s.threads) && HolderBytes(s') < HolderBytes(s))
  {
    if s.threads[a.t].phase.HoldsMutex() {
      OnlyTheHolder(s, SerialDev(s0.dev, s.log), a.t);
    }
    hide Inv;
    StagesOrBytes(s, a);
    StepOnMutex(s, a);
    hide Step, BytesLeft, AllStagesLeft;
  }

  lemma StagesOrBytes(s: State, a: Action)
    requires Enabled(s, a)
    ensures var s' := Step(s, a);
            || AllStagesLeft(s'.threads) < AllStagesLeft(s.threads)
            || (&& AllStagesLeft(s'.threads) == AllStagesLeft(s.threads)
                && (a.WriteSome? || a.ReadSome?) && |s'.threads| == |s.threads|
                && BytesLeft(s'.dev, s'.threads[a.t].phase) < BytesLeft(s.dev, s.threads[a.t].phase))
  {
    hide Decode, CString, Payload, AllStagesLeft, SeekTo, ReadAt, Rest, Accept;
    var s' := Step(s, a);
    StagesAfterUpdate(s.threads, a.t, s'.threads[a.t]);
    assert s'.threads == s.threads[a.t := s'.threads[a.t]];
    if a.ReadSome? {
      ReadIsPrefix(s.dev.lines, s.threads[a.t].phase.pos, SEND_BUFFER);
    }
  }

  /** So no run is infinite: the steps of one would descend for ever. */
  lemma {:induction false} NoInfiniteRun(s0: State, states: nat -> State, actions: nat -> Action, i: nat)
    requires Inv(s0, states(i))
    requires forall k: nat :: Enabled(states(k), actions(k)) && states(k + 1) == Step(states(k), actions(k))
    ensures false
    decreases AllStagesLeft(states(i).threads), HolderBytes(states(i))
  {
    assert states(i + 1) == Step(states(i), actions(i));
    hide Inv, Enabled, Step, AllStagesLeft, HolderBytes;
    StepKeepsInv(s0, states(i), actions(i));
    StepDecreases(s0, states(i), actions(i));
    NoInfiniteRun(s0, states, actions, i + 1);
  }

  /** Whatever state is reached, actions that do not fail lead on to rest. */
  lemma {:induction false} LeadsToRest(s0: State, s: State) returns (more: seq<Action>)
    requires Inv(s0, s)
    ensures CanRun(s, more) && AtRest(Run(s, more)) && NoneFails(more)
    decreases AllStagesLeft(s.threads), HolderBytes(s)
  {
    hide Inv, Enabled, Step, AllStagesLeft, HolderBytes;
    if AtRest(s) {
      more := [];
    } else {
      hide AtRest;
      var a := NoDeadlock(s0, s);
      StepKeepsInv(s0, s, a);
      StepDecreases(s0, s, a);
      var later := LeadsToRest(s0, Step(s, a));
      more := [a] + later;
      assert more[1..] == later;
    }
  }

  lemma {:induction false} RunAppend(s: State, a: seq<Action>, b: seq<Action>)
    requires CanRun(s, a) && CanRun(Run(s, a), b)
    ensures CanRun(s, a + b) && Run(s, a + b) == Run(Run(s, a), b)
    decreases |a|
  {
    hide Enabled, Step;
    if a == [] {
      assert a + b == b;
    } else {
      assert (a + b)[1..] == a[1..] + b;
      RunAppend(Step(s, a[0]), a[1..], b);
    }
  }

  /** When nothing fails any more, only the message at work can be one for which something failed. */
  lemma {:induction false} OnlyTheFirstFailed(f: Fate, actions: seq<Action>)
    requires NoneFails(actions)
    ensures forall k :: 0 <= k < |FatesFrom(f, actions)| ==>
              (FatesFrom(f, actions)[k].Failed() <==> k == 0 && f.Failed())
    decreases |actions|
  {
    if actions != [] {
      assert !actions[0].Fails();
      assert forall i :: 0 < i < |actions| ==> actions[i] == actions[1..][i - 1];
      if actions[0].Unlock? {
        NoneFailsIff(CLEAN, actions[1..]);
      } else {
        OnlyTheFirstFailed(Note(f, actions[0]), actions[1..]);
      }
    }
  }

  lemma AddedAreFulfilled(s0: State, s: State, f: Fate, actions: seq<Action>)
    requires Inv(s0, s) && HolderMatches(s, f) && CanRun(s, actions) && NoneFails(actions)
    ensures var log := Run(s, actions).log;
            && s.log <= log
            && forall k :: |s.log| <= k < |log| ==> (Fulfilled(log[k]) <==> !(k == |s.log| && f.Failed()))
  {
    RunMatches(s0, s, f, actions);
    OnlyTheFirstFailed(f, actions);
    hide Inv, HolderMatches, Run, CanRun, FatesFrom, NoneFails, Matches, Fulfilled;
    var log, fates := Run(s, actions).log, FatesFrom(f, actions);
    forall k | |s.log| <= k < |log|
      ensures Fulfilled(log[k]) <==> !(k == |s.log| && f.Failed())
    {
      FulfilledIff(log[k], fates[k - |s.log|]);
    }
  }

  /**
    Wherever a run has got to, it can be carried on until all is done, and nothing need fail
    on the way.  Every message that this adds to the log is then served, written whole and
    answered completely, except the first one when something had already failed for it.
   */
  lemma Completes(s0: State, actions: seq<Action>) returns (more: seq<Action>)
    requires Initial(s0) && CanRun(s0, actions)
    ensures CanRun(s0, actions + more) && AtRest(Run(s0, actions + more)) && NoneFails(more)
    ensures var log, log' := Run(s0, actions).log, Run(s0, actions + more).log;
            && log <= log'
            && forall k :: |log| <= k < |log'| ==>
                 (Fulfilled(log'[k]) <==> !(k == |log| && Pending(CLEAN, actions).Failed()))
  {
    var s := Run(s0, actions);
    InitialInv(s0);
    RunKeepsInv(s0, s0, actions);
    RunMatches(s0, s0, CLEAN, actions);
    hide *;
    more := LeadsToRest(s0, s);
    RunAppend(s0, actions, more);
    AddedAreFulfilled(s0, s, Pending(CLEAN, actions), more);
  }

  // ---------- from byte streams ----------

  /** Each connection delivers bytes, errors and a close; its messages are what is received of them. */
  ghost predicate FedBy(s0: State, feeds: seq<seq<Framing.Event>>) {
    && |feeds| == |s0.threads|
    && forall t :: 0 <= t < |feeds| ==>
         ShortRuns(feeds[t], NEWLINE) && s0.threads[t].inbox == Messages(feeds[t], NEWLINE)
  }

  lemma FedIsInitial(s0: State, feeds: seq<seq<Framing.Event>>)
    requires Starting(s0) && FedBy(s0, feeds)
    ensures Initial(s0)
    ensures forall t :: 0 <= t < |feeds| ==> s0.threads[t].inbox == Lines(feeds[t], NEWLINE)
  {
    forall t | 0 <= t < |feeds|
      ensures s0.threads[t].inbox == Lines(feeds[t], NEWLINE)
      ensures DelimiterFree(s0.threads[t].inbox, NEWLINE)
    {
      MessagesAreLines(feeds[t], NEWLINE);
      LinesAreDelimiterFree(feeds[t], NEWLINE);
    }
  }

  /**
    End to end: every run, wherever it has got to, can be carried on until all is done without
    a failure, and the log then holds of each connection exactly the lines of what it delivered,
    in order.  What is added is served, written whole and answered completely, but for a message
    for which something had already failed; so if nothing has failed, all lines are.
   */
  lemma StreamsAreServed(s0: State, feeds: seq<seq<Framing.Event>>, actions: seq<Action>) returns (more: seq<Action>)
    requires Starting(s0) && FedBy(s0, feeds) && CanRun(s0, actions)
    ensures CanRun(s0, actions + more) && AtRest(Run(s0, actions + more)) && NoneFails(more)
    ensures forall t :: 0 <= t < |feeds| ==>
              MessagesOf(Run(s0, actions + more).log, t) == Lines(feeds[t], NEWLINE)
    ensures var log, log' := Run(s0, actions).log, Run(s0, actions + more).log;
            && log <= log'
            && (forall k :: |log| <= k < |log'| ==>
                 (Fulfilled(log'[k]) <==> !(k == |log| && Pending(CLEAN, actions).Failed())))
            && (NoneFails(actions) <==> forall k :: 0 <= k < |log'| ==> Fulfilled(log'[k]))
  {
    FedIsInitial(s0, feeds);
    more := Completes(s0, actions);
    forall t | 0 <= t < |feeds|
      ensures MessagesOf(Run(s0, actions + more).log, t) == Lines(feeds[t], NEWLINE)
    {
      RestMeansServed(s0, actions + more, t);
    }
    AllFulfilledIff(s0, actions + more);
    RestIsFree(s0, actions + more);
    hide Run, CanRun, Fulfilled, Pending, MessagesOf, AtRest, Initial, Starting, FedBy;
    assert forall i :: 0 <= i < |actions| ==> (actions + more)[i] == actions[i];
  }

  /** Whenever all is done, the mutex is free. */
  lemma RestIsFree(s0: State, actions: seq<Action>)
    requires Initial(s0) && CanRun(s0, actions) && AtRest(Run(s0, actions))
    ensures Run(s0, actions).mutex == None
  {
    InitialInv(s0);
    RunKeepsInv(s0, s0, actions);
    var s := Run(s0, actions);
    WhoIsInside(s, SerialDev(s0.dev, s.log));
  }

  /** Whenever all is done, each thread has dealt with all its messages, in order. */
  lemma RestMeansServed(s0: State, actions: seq<Action>, t: nat)
    requires Initial(s0) && CanRun(s0, actions) && AtRest(Run(s0, actions)) && t < |s0.threads|
    ensures MessagesOf(Run(s0, actions).log, t) == s0.threads[t].inbox
  {
    Serializable(s0, actions);
    var s := Run(s0, actions);
    hide Run, CanRun, MessagesOf, Initial;
    var seen := MessagesOf(s.log, t);
    assert seen + s.threads[t].phase.InWork() + s.threads[t].inbox == s0.threads[t].inbox;
    assert seen + [] + [] == seen;
  }
}
