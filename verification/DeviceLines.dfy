/**
  The lines that the clients' messages make in the device: which of them are the messages
  themselves, and when all are, by the actions that a run takes.
 */
module DeviceLines {
  import opened ByteStrings
  import opened CircularBuffers
  import opened DeviceSpec
  import opened SeekCommand
  import opened Protocol
  import opened Fates
  import opened Serializability

  predicate IsPlain(e: LogEntry) {
    e.Served? && Decode(CString(e.message)) == None
  }

  /** What a message left in the device is told by the number of its bytes and by its write. */
  lemma PartMatches(e: LogEntry, f: Fate)
    requires Matches(e, f) && NEWLINE !in e.message
    ensures f.bytes <= |Payload(e.message)| && PartOf(e) == Payload(e.message)[..f.bytes]
    ensures Torn(PartOf(e)) <==> f.LeftTorn()
    ensures EndsInNewline(PartOf(e)) <==> f.LeftWhole()
    ensures f.LeftWhole() ==> PartOf(e) == Payload(e.message)
    ensures f.LeftWhole() <==> IsPlain(e) && !f.writeFailed
    ensures f.writeFailed ==> IsPlain(e)
  {
    PayloadShape(e.message);
    hide Decode, CString, Payload, Torn, EndsInNewline;
    Beginning(Payload(e.message), f.bytes);
    Beginning(Payload(e.message), 0);
  }

  /** The beginning of a line is torn unless it is empty or all of it. */
  lemma Beginning(line: Bytes, n: nat)
    requires EndsInNewline(line) && n <= |line|
    requires forall i: nat :: i < |line| ==> NEWLINE !in line[..i]
    ensures Torn(line[..n]) <==> 0 < n < |line|
    ensures EndsInNewline(line[..n]) <==> n == |line|
    ensures line[..0] == [] && line[..|line|] == line
  {
    if 0 < n < |line| {
      assert line[..n][n - 1] in line[..n];
    }
  }

  /** The parts are torn and whole as the fates say. */
  ghost predicate SameParts(parts: seq<Bytes>, fates: seq<Fate>) {
    && |parts| == |fates|
    && (forall k :: 0 <= k < |parts| ==> (Torn(parts[k]) <==> fates[k].LeftTorn()))
    && (forall k :: 0 <= k < |parts| ==> (EndsInNewline(parts[k]) <==> fates[k].LeftWhole()))
  }

  /** The parts of the log are the first bytes of its messages, as many as the actions wrote. */
  lemma PartsOfFates(s0: State, actions: seq<Action>)
    requires Initial(s0) && CanRun(s0, actions)
    ensures var log, fates := Run(s0, actions).log, FatesOf(actions);
            && SameParts(Parts(log), fates)
            && forall k :: 0 <= k < |log| ==>
                 && fates[k].bytes <= |Payload(log[k].message)|
                 && Parts(log)[k] == Payload(log[k].message)[..fates[k].bytes]
  {
    LogMatchesFates(s0, actions);
    var log, fates := Run(s0, actions).log, FatesOf(actions);
    forall k | 0 <= k < |log|
      ensures fates[k].bytes <= |Payload(log[k].message)|
      ensures Parts(log)[k] == Payload(log[k].message)[..fates[k].bytes]
      ensures Torn(Parts(log)[k]) <==> fates[k].LeftTorn()
      ensures EndsInNewline(Parts(log)[k]) <==> fates[k].LeftWhole()
    {
      LogIsNewlineFree(s0, actions, k);
      hide *;
      PartMatches(log[k], fates[k]);
      PartAt(log, k);
    }
    hide Run, CanRun, Initial, FatesOf, Payload, Torn, EndsInNewline, Fate.LeftTorn, Fate.LeftWhole, PartOf;
  }

  lemma LogIsNewlineFree(s0: State, actions: seq<Action>, k: nat)
    requires Initial(s0) && CanRun(s0, actions) && k < |Run(s0, actions).log|
    ensures NEWLINE !in Run(s0, actions).log[k].message
  {
    var t, j := LoggedWasDelivered(s0, actions, k);
  }

  /** The lines of the served plain messages, in log order, as if no write had failed. */
  function PlainLines(log: seq<LogEntry>): seq<Bytes> {
    if log == [] then []
    else (if IsPlain(log[0]) then [Payload(log[0].message)] else []) + PlainLines(log[1..])
  }

  /** The whole parts are all plain lines exactly when no message was written short. */
  lemma {:induction false} WholeIsPlainIff(log: seq<LogEntry>, fates: seq<Fate>)
    requires |log| == |fates|
    requires forall k :: 0 <= k < |log| ==> Matches(log[k], fates[k]) && NEWLINE !in log[k].message
    ensures CountsShort(Whole(Parts(log)), PlainLines(log), !NoneShort(fates))
    decreases |log|
  {
    if log != [] {
      WholeIsPlainIff(log[1..], fates[1..]);
      PartMatches(log[0], fates[0]);
      PartsOfTail(log);
      hide PartOf, Matches, Payload, IsPlain, Parts, EndsInNewline, Torn, CountsShort;
      CountsOneMore(if fates[0].LeftWhole() then [PartOf(log[0])] else [],
                    if IsPlain(log[0]) then [Payload(log[0].message)] else [], fates[0].writeFailed,
                    Whole(Parts(log[1..])), PlainLines(log[1..]), !NoneShort(fates[1..]));
      assert fates == [fates[0]] + fates[1..] && [fates[0]][0] == fates[0];
      NoneShortAppend([fates[0]], fates[1..]);
    }
  }

  /** The same lines, or fewer of them when some are short. */
  ghost predicate CountsShort(whole: seq<Bytes>, lines: seq<Bytes>, short: bool) {
    if short then |whole| < |lines| else whole == lines
  }

  lemma CountsOneMore(a: seq<Bytes>, b: seq<Bytes>, s: bool, whole: seq<Bytes>, lines: seq<Bytes>, short: bool)
    requires if s then |a| < |b| else a == b
    requires CountsShort(whole, lines, short)
    ensures CountsShort(a + whole, b + lines, s || short)
  {
  }

  lemma PartsOfTail(log: seq<LogEntry>)
    requires log != []
    ensures Parts(log)[0] == PartOf(log[0]) && Parts(log)[1..] == Parts(log[1..])
  {
  }

  lemma {:induction false} AsManyLines(pending: Bytes, parts: seq<Bytes>)
    ensures |Groups(pending, parts).lines| == |Whole(parts)|
    decreases |parts|
  {
    if parts != [] {
      AsManyLines(if EndsInNewline(parts[0]) then [] else pending + parts[0], parts[1..]);
    }
  }

  /** A message was left torn, and a later one was written whole. */
  ghost predicate Spoilt(fates: seq<Fate>) {
    exists j, k :: 0 <= j < k < |fates| && fates[j].LeftTorn() && fates[k].LeftWhole()
  }

  /** After every message that was left torn another one was written whole. */
  ghost predicate Cleared(fates: seq<Fate>) {
    forall j :: 0 <= j < |fates| && fates[j].LeftTorn() ==> exists k :: j < k < |fates| && fates[k].LeftWhole()
  }

  /**
    The committed lines are exactly the messages that were written whole if and only if no
    write failed inside a message before another message was written whole.
   */
  lemma LinesAreMessagesIff(s0: State, actions: seq<Action>)
    requires Initial(s0) && CanRun(s0, actions)
    ensures var parts := Parts(Run(s0, actions).log);
            Groups([], parts).lines == Whole(parts) <==> !Spoilt(FatesOf(actions))
  {
    PartsOfFates(s0, actions);
    var parts, fates := Parts(Run(s0, actions).log), FatesOf(actions);
    hide *;
    CleanLinesIff([], parts);
    SpoiltIff(parts, fates);
  }

  lemma SpoiltIff(parts: seq<Bytes>, fates: seq<Fate>)
    requires SameParts(parts, fates)
    ensures Unspoilt([], parts) <==> !Spoilt(fates)
  {
    hide Torn, EndsInNewline, Fate.LeftTorn, Fate.LeftWhole;
    if !Unspoilt([], parts) {
      var j, k :| 0 <= k < |parts| && EndsInNewline(parts[k]) && 0 <= j < k && Torn(parts[j]);
      assert fates[j].LeftTorn() && fates[k].LeftWhole();
    }
    if Spoilt(fates) {
      var j, k :| 0 <= j < k < |fates| && fates[j].LeftTorn() && fates[k].LeftWhole();
      assert Torn(parts[j]) && EndsInNewline(parts[k]);
    }
  }

  /** With the mutex free, nothing is staged exactly when every torn message has a whole one after it. */
  lemma NothingLeftStagedIff(s0: State, actions: seq<Action>)
    requires Initial(s0) && CanRun(s0, actions)
    requires Run(s0, actions).mutex == None
    ensures Run(s0, actions).dev.staging == [] <==> Cleared(FatesOf(actions))
  {
    RingHoldsGroups(s0, actions);
    PartsOfFates(s0, actions);
    var parts, fates := Parts(Run(s0, actions).log), FatesOf(actions);
    hide Run, CanRun, Initial, Groups, Torn, Parts, FatesOf, Payload;
    NothingStagedIff(parts);
    ClearedIffSettled(parts, fates);
  }

  lemma ClearedIffSettled(parts: seq<Bytes>, fates: seq<Fate>)
    requires SameParts(parts, fates)
    ensures Cleared(fates) <==> Settled(parts)
  {
    hide Torn, EndsInNewline, Fate.LeftTorn, Fate.LeftWhole;
    if Settled(parts) {
      forall j | 0 <= j < |fates| && fates[j].LeftTorn()
        ensures exists k :: j < k < |fates| && fates[k].LeftWhole()
      {
        assert Torn(parts[j]);
        var k :| j < k < |parts| && EndsInNewline(parts[k]);
        assert fates[k].LeftWhole();
      }
    }
    if Cleared(fates) {
      forall j | 0 <= j < |parts| && Torn(parts[j])
        ensures exists k :: j < k < |parts| && EndsInNewline(parts[k])
      {
        assert fates[j].LeftTorn();
        var k :| j < k < |fates| && fates[k].LeftWhole();
        assert EndsInNewline(parts[k]);
      }
    }
  }

  /** Each of the plain lines is the text of one message of one client, and its newline. */
  lemma PlainLinesAreClients(s0: State, actions: seq<Action>, i: nat)
    requires Initial(s0) && CanRun(s0, actions) && i < |PlainLines(Run(s0, actions).log)|
    ensures IsClientLine(s0, PlainLines(Run(s0, actions).log)[i])
  {
    var k := PlainLineIsLogged(Run(s0, actions).log, i);
    var t, j := LoggedWasDelivered(s0, actions, k);
  }

  lemma {:induction false} PlainLineIsLogged(log: seq<LogEntry>, i: nat) returns (k: nat)
    requires i < |PlainLines(log)|
    ensures k < |log| && IsPlain(log[k]) && PlainLines(log)[i] == Payload(log[k].message)
    decreases |log|
  {
    hide IsPlain, Payload;
    if IsPlain(log[0]) && i == 0 {
      k := 0;
    } else {
      var k' := PlainLineIsLogged(log[1..], if IsPlain(log[0]) then i - 1 else i);
      k := k' + 1;
    }
  }

  /** The committed lines are the plain messages, all of them and in log order, if and only if no write has failed. */
  lemma LinesAreThePlainOnesIff(s0: State, actions: seq<Action>)
    requires Initial(s0) && CanRun(s0, actions)
    requires Run(s0, actions).mutex == None
    ensures var log := Run(s0, actions).log;
            NoWriteFails(actions) <==> Groups([], Parts(log)).lines == PlainLines(log)
    ensures NoWriteFails(actions) ==> !Spoilt(FatesOf(actions)) && Cleared(FatesOf(actions))
  {
    var s, fates := Run(s0, actions), FatesOf(actions);
    LogMatchesFates(s0, actions);
    InitialInv(s0);
    RunMatches(s0, s0, CLEAN, actions);
    forall k | 0 <= k < |s.log|
      ensures NEWLINE !in s.log[k].message
    {
      LogIsNewlineFree(s0, actions, k);
    }
    hide Run, CanRun, Initial, Matches, Groups, Whole, PlainLines, NoWriteFails, FatesFrom, Pending;
    NoWriteFailsIff(CLEAN, actions);
    WholeIsPlainIff(s.log, fates);
    AsManyLines([], Parts(s.log));
    LinesAreMessagesIff(s0, actions);
    hide Parts;
  }

  /**
    With the mutex free, the device holds the last ten of the old lines and the committed
    ones, and nothing is staged exactly when every torn message has a whole one after it.  If
    no write has failed, that is the plain messages in log order, each one client's, and
    nothing is staged.
   */
  lemma RingHoldsLastLines(s0: State, actions: seq<Action>)
    requires Initial(s0) && CanRun(s0, actions)
    requires Run(s0, actions).mutex == None
    ensures var s := Run(s0, actions);
            && s.dev.lines == LastN(10, s0.dev.lines + Groups([], Parts(s.log)).lines)
            && (s.dev.staging == [] <==> Cleared(FatesOf(actions)))
            && (NoWriteFails(actions) ==>
                 && s.dev == Dev(LastN(10, s0.dev.lines + PlainLines(s.log)), [])
                 && forall i :: 0 <= i < |PlainLines(s.log)| ==> IsClientLine(s0, PlainLines(s.log)[i]))
  {
    var s := Run(s0, actions);
    RingHoldsGroups(s0, actions);
    NothingLeftStagedIff(s0, actions);
    LinesAreThePlainOnesIff(s0, actions);
    forall i | 0 <= i < |PlainLines(s.log)|
      ensures IsClientLine(s0, PlainLines(s.log)[i])
    {
      PlainLinesAreClients(s0, actions, i);
    }
  }

  lemma {:induction false} WholeIsAPart(parts: seq<Bytes>, i: nat) returns (k: nat)
    requires i < |Whole(parts)|
    ensures k < |parts| && Whole(parts)[i] == parts[k] && EndsInNewline(parts[k])
  {
    if EndsInNewline(parts[0]) && i == 0 {
      k := 0;
    } else {
      var k' := WholeIsAPart(parts[1..], if EndsInNewline(parts[0]) then i - 1 else i);
      k := k' + 1;
    }
  }

  ghost predicate NulFree(s0: State) {
    forall t, i :: 0 <= t < |s0.threads| && 0 <= i < |s0.threads[t].inbox| ==> NUL !in s0.threads[t].inbox[i]
  }

  /**
    When no write fails inside a message before another one is written whole, every line that
    a run commits is exactly one client's message, and for messages without NUL that is the
    message as it was received, and its newline.
   */
  lemma EveryLineIsAMessage(s0: State, actions: seq<Action>, i: nat) returns (t: nat, j: nat)
    requires Initial(s0) && CanRun(s0, actions) && !Spoilt(FatesOf(actions))
    requires i < |Groups([], Parts(Run(s0, actions).log)).lines|
    ensures t < |s0.threads| && j < |s0.threads[t].inbox|
    ensures var line, message := Groups([], Parts(Run(s0, actions).log)).lines[i], s0.threads[t].inbox[j];
            line == Payload(message) && (NulFree(s0) ==> line == message + [NEWLINE])
  {
    var log := Run(s0, actions).log;
    LinesAreMessagesIff(s0, actions);
    var k := WholeIsAPart(Parts(log), i);
    EveryPartIsAClients(s0, actions, k);
    hide Run, CanRun, Initial, Parts, Groups, Whole, Payload;
    assert IsClientLine(s0, Parts(log)[k]);
    t, j :| 0 <= t < |s0.threads| && 0 <= j < |s0.threads[t].inbox| && Parts(log)[k] == Payload(s0.threads[t].inbox[j]);
    if NulFree(s0) {
      PayloadIs(s0.threads[t].inbox[j], []);
    }
  }
}
