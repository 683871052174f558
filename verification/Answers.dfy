/** What the clients of the server receive, in every run. */
module Answers {
  import opened ByteStrings
  import opened CircularBuffers
  import opened DeviceSpec
  import opened SeekCommand
  import opened Protocol
  import opened Fates
  import opened Serializability
  import opened DeviceLines

  /** The device before the message at place `k` of a log. */
  function Before(s0: State, log: seq<LogEntry>, k: nat): Dev
    requires k <= |log|
  {
    var g := Groups([], Parts(log[..k]));
    Dev(LastN(10, s0.dev.lines + g.lines), g.rest)
  }

  /** The reply to a message of which no send failed is the one it gets from the device as it was before. */
  lemma ReplyInLog(s0: State, actions: seq<Action>, k: nat)
    requires Initial(s0) && CanRun(s0, actions)
    requires k < |Run(s0, actions).log| && k < |FatesOf(actions)|
    requires !FatesOf(actions)[k].dropped && !FatesOf(actions)[k].replyFailed
    ensures var log := Run(s0, actions).log;
            log[k].Served? && log[k].reply == Handle(Before(s0, log, k), log[k].message, log[k].written).reply
  {
    Serializable(s0, actions);
    LogMatchesFates(s0, actions);
    var s := Run(s0, actions);
    assert Matches(s.log[k], FatesOf(actions)[k]);
    hide Run, CanRun, Handle, SerialDev, Parts, Groups, InOrder, MutuallyExclusive;
    SerialDevHoldsLines(s0.dev, s.log[..k]);
    assert Replies(s.log[k].reply, s.log[k].cut,
                   Handle(SerialDev(s0.dev, s.log[..k]), s.log[k].message, s.log[k].written).reply);
  }

  /** Nothing stands before a message exactly when all torn ones have a whole one after them. */
  lemma BeforeIsClearedIff(s0: State, actions: seq<Action>, k: nat)
    requires Initial(s0) && CanRun(s0, actions)
    requires k < |Run(s0, actions).log| && k < |FatesOf(actions)|
    ensures Before(s0, Run(s0, actions).log, k).staging == [] <==> Cleared(FatesOf(actions)[..k])
  {
    PartsOfFates(s0, actions);
    SamePartsBefore(Run(s0, actions).log, FatesOf(actions), k);
    hide *;
    var log, fates := Run(s0, actions).log, FatesOf(actions);
    NothingStagedIff(Parts(log[..k]));
    ClearedIffSettled(Parts(log[..k]), fates[..k]);
    StagedBefore(s0, log, k);
  }

  lemma StagedBefore(s0: State, log: seq<LogEntry>, k: nat)
    requires k <= |log|
    ensures Before(s0, log, k).staging == Groups([], Parts(log[..k])).rest
  {
  }

  lemma SamePartsBefore(log: seq<LogEntry>, fates: seq<Fate>, k: nat)
    requires k <= |log| && SameParts(Parts(log), fates)
    ensures SameParts(Parts(log[..k]), fates[..k])
  {
    hide Torn, EndsInNewline, Fate.LeftTorn, Fate.LeftWhole, PartOf;
    assert Parts(log[..k]) == Parts(log)[..k];
  }

  /**
    When nothing fails for a plain message, its reply is the device's contents right after its
    own commit: at most nine earlier lines, and then the message, behind what torn messages
    left before it.  They left nothing exactly if each has a whole one after it; then the
    reply ends in the message itself, and without NUL in it that is the message as received.
   */
  lemma PlainReply(s0: State, actions: seq<Action>, k: nat)
    requires Initial(s0) && CanRun(s0, actions)
    requires k < |Run(s0, actions).log| && k < |FatesOf(actions)|
    requires !FatesOf(actions)[k].Failed() && Decode(CString(Run(s0, actions).log[k].message)) == None
    ensures Run(s0, actions).log[k].Served?
    ensures var e, before := Run(s0, actions).log[k], Before(s0, Run(s0, actions).log, k);
            var earlier := EarlierLines(s0, actions, k);
            && e.reply == Flatten(earlier) + (before.staging + Payload(e.message))
            && (before.staging == [] <==> Cleared(FatesOf(actions)[..k]))
            && (before.staging == [] && NUL !in e.message ==> e.reply == Flatten(earlier) + (e.message + [NEWLINE]))
  {
    ReplyInLog(s0, actions, k);
    LogMatchesFates(s0, actions);
    BeforeIsClearedIff(s0, actions, k);
    LogIsNewlineFree(s0, actions, k);
    var log := Run(s0, actions).log;
    var message := log[k].message;
    assert Matches(log[k], FatesOf(actions)[k]);
    var g := Groups([], Parts(log[..k]));
    GroupsEndInNewline([], Parts(log[..k]));
    if NUL !in message {
      PayloadIs(message, []);
    }
    hide Run, CanRun, Initial, Parts, Groups, Payload, Decode, CString, Handle, Flatten, FatesOf, Cleared;
    HandlePlain(s0.dev.lines + g.lines, g.rest, message, log[k].written);
    assert g.rest == [] ==> g.rest + Payload(message) == Payload(message);
  }

  /** The lines before message `k` that its commit leaves in the device. */
  function EarlierLines(s0: State, actions: seq<Action>, k: nat): seq<Bytes>
    requires CanRun(s0, actions) && k <= |Run(s0, actions).log|
  {
    LastN(9, s0.dev.lines + Groups([], Parts(Run(s0, actions).log[..k])).lines)
  }

  lemma HandlePlain(history: seq<Bytes>, rest: Bytes, message: Bytes, n: nat)
    requires Decode(CString(message)) == None && NEWLINE !in message && !EndsInNewline(rest)
    requires n >= |Payload(message)|
    ensures Handle(Dev(LastN(10, history), rest), message, n).reply ==
            Flatten(LastN(9, history)) + (rest + Payload(message))
  {
    AcceptWritten(Dev(LastN(10, history), rest), message, n);
    hide Decode, CString, Flatten, Payload, Accept, Written;
    var line := rest + Payload(message);
    assert Push(LastN(10, history), line) == LastN(9, history) + [line];
    FlattenSnoc(LastN(9, history), line);
  }

  /**
    The complete reply to a seek is the addressed line from the given offset and all later
    lines, as they were at that moment; an address out of range gets an empty reply.
   */
  lemma SeekReply(s0: State, actions: seq<Action>, k: nat, seek: Seek)
    requires Initial(s0) && CanRun(s0, actions)
    requires k < |Run(s0, actions).log| && k < |FatesOf(actions)|
    requires !FatesOf(actions)[k].Failed() && Decode(CString(Run(s0, actions).log[k].message)) == Some(seek)
    ensures var log := Run(s0, actions).log;
            log[k].Served? && log[k].reply == Addressed(Before(s0, log, k).lines, seek)
    ensures var log := Run(s0, actions).log; Before(s0, log, k + 1) == Before(s0, log, k)
  {
    hide Run, CanRun, Initial, Decode, CString, Before, Handle, FatesOf;
    ReplyInLog(s0, actions, k);
    var log := Run(s0, actions).log;
    SeekLeavesNothing(s0, log, k);
    HandleSeek(Before(s0, log, k), log[k].message, log[k].written, seek);
  }

  lemma SeekLeavesNothing(s0: State, log: seq<LogEntry>, k: nat)
    requires k < |log| && PartOf(log[k]) == []
    ensures Before(s0, log, k + 1) == Before(s0, log, k)
  {
    hide Groups, PartOf;
    assert Parts(log[..k + 1]) == Parts(log[..k]) + [PartOf(log[k])];
    GroupsSnoc([], Parts(log[..k]), PartOf(log[k]));
    var rest := Groups([], Parts(log[..k])).rest;
    assert rest + [] == rest;
  }

  /** The bytes that a seek asks for. */
  function Addressed(lines: seq<Bytes>, seek: Seek): Bytes {
    if seek.command < |lines| && seek.offset < |lines[seek.command]|
    then lines[seek.command][seek.offset..] + Flatten(lines[seek.command + 1..])
    else []
  }

  lemma HandleSeek(dev: Dev, message: Bytes, n: nat, seek: Seek)
    requires Decode(CString(message)) == Some(seek)
    ensures Handle(dev, message, n) == Handled(dev, Addressed(dev.lines, seek))
  {
    hide Decode, CString, Flatten, SeekTo, Rest;
    SeekContents(dev.lines, seek.command, seek.offset);
  }

  /** A printed seek is a line without NUL or newline, and decodes to that seek. */
  lemma PrintedSeek(seek: Seek)
    ensures Decode(CString(PrintSeek(seek))) == Some(seek)
    ensures NEWLINE !in PrintSeek(seek)
  {
    hide Decode;
    var s := PrintSeek(seek);
    assert forall i :: 0 <= i < |PREFIX| ==> PREFIX[i] > NEWLINE;
    assert NUL !in s && NEWLINE !in s;
    assert s[..|s|] == s;
    DecodePrinted(seek);
  }

  /** In every run, a client that prints a seek gets the bytes that the seek asks for, unless something fails for it. */
  lemma PrintedSeekIsServed(s0: State, actions: seq<Action>, k: nat, seek: Seek)
    requires Initial(s0) && CanRun(s0, actions)
    requires k < |Run(s0, actions).log| && k < |FatesOf(actions)|
    requires !FatesOf(actions)[k].Failed() && Run(s0, actions).log[k].message == PrintSeek(seek)
    ensures var log := Run(s0, actions).log;
            log[k].Served? && log[k].reply == Addressed(Before(s0, log, k).lines, seek)
  {
    PrintedSeek(seek);
    SeekReply(s0, actions, k, seek);
  }
}
