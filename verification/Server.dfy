/**
  The work of one thread while it holds the mutex, on the device itself: handle_message and
  tcp_connection_send_file.  Device calls and sends may fail, as their environments decide.
  The effect on the device is always that of the atomic `Protocol.Handle`, and when none of
  the calls that were made failed, the message is handled whole and its reply is complete.
 */
module Server {
  import opened ByteStrings
  import opened CircularBuffers
  import opened DeviceSpec
  import opened Devices
  import opened Environments
  import opened SeekCommand
  import opened Protocol

  /** The sending side of a connection: the bytes handed to successful `send` calls. */
  class Client {
    var sent: Bytes
    const env: Environment

    constructor (env: Environment)
      ensures sent == [] && this.env == env
    {
      sent, this.env := [], env;
    }

    /** tcp_connection_send_message */
    method Send(data: Bytes) returns (ok: bool)
      modifies this, env
      ensures ok == !old(env.Fails())
      ensures Used(old(env.script), env.script) && (ok <==> Quiet(old(env.script), env.script))
      ensures sent == if ok then old(sent) + data else old(sent)
    {
      var fails := env.Ask();
      ok := !fails;
      if ok {
        sent := sent + data;
      }
    }
  }

  /** `now` is `before` and then a part of `whole` from its beginning on. */
  ghost predicate Extends(before: Bytes, now: Bytes, whole: Bytes) {
    before <= now <= before + whole
  }

  /**
    tcp_connection_send_file: reads and sends until the end of the file or a failure.  The
    source reports success also when a read failed.
   */
  method SendFile(client: Client, dev: Device, file: File) returns (ok: bool)
    requires dev.Valid()
    modifies client, file, client.env, dev.env
    ensures dev.Valid()
    ensures Used(old(dev.env.script), dev.env.script) && Used(old(client.env.script), client.env.script)
    ensures Quiet(old(dev.env.script), dev.env.script) && Quiet(old(client.env.script), client.env.script) ==>
              ok && client.sent == old(client.sent) + Rest(dev.state.lines, old(file.fPos))
    ensures !ok ==> !Quiet(old(client.env.script), client.env.script)
    ensures dev.env != client.env ==> (ok <==> Quiet(old(client.env.script), client.env.script))
    ensures Extends(old(client.sent), client.sent, Rest(dev.state.lines, old(file.fPos)))
  {
    hide Rest, Device.Valid, Used, Quiet, OnTheWay;
    ghost var devScript, script := dev.env.script, client.env.script;
    ghost var lines, goal := dev.state.lines, client.sent + Rest(dev.state.lines, file.fPos);
    NotUsed(script);
    var bytesRead, buffer := ReadOn(dev, file, client.sent);
    while bytesRead > 0
      invariant dev.Valid() && dev.state.lines == lines
      invariant Used(devScript, dev.env.script) && Used(script, client.env.script)
      invariant bytesRead < 0 ==> !Quiet(devScript, dev.env.script)
      invariant dev.env != client.env ==> Quiet(script, client.env.script)
      invariant bytesRead >= 0 ==> bytesRead == |buffer| && OnTheWay(goal, client.sent, buffer, Rest(lines, file.fPos))
      invariant old(client.sent) <= client.sent <= goal
      decreases bytesRead >= 0, |Rest(lines, file.fPos)|, bytesRead > 0
    {
      SentSoFar(goal, client.sent, buffer, Rest(lines, file.fPos));
      ghost var devBefore, before := dev.env.script, client.env.script;
      ok := client.Send(buffer);
      MoreUsed(devScript, devBefore, dev.env.script, script, before, client.env.script);
      if !ok {
        return;
      }
      devBefore, before := dev.env.script, client.env.script;
      bytesRead, buffer := ReadOn(dev, file, client.sent);
      MoreUsed(devScript, devBefore, dev.env.script, script, before, client.env.script);
    }
    ok := true;
    if bytesRead == 0 {
      AllSent(goal, client.sent, buffer, Rest(lines, file.fPos));
    }
  }

  /** One more read from where the last one stopped; if it returns something, less is left. */
  method ReadOn(dev: Device, file: File, ghost sent: Bytes) returns (bytesRead: int, buffer: Bytes)
    requires dev.Valid()
    modifies file, dev.env
    ensures dev.Valid() && Used(old(dev.env.script), dev.env.script)
    ensures bytesRead < 0 ==> !Quiet(old(dev.env.script), dev.env.script)
    ensures bytesRead >= 0 ==>
              && bytesRead == |buffer|
              && OnTheWay(sent + Rest(dev.state.lines, old(file.fPos)), sent, buffer, Rest(dev.state.lines, file.fPos))
              && |Rest(dev.state.lines, old(file.fPos))| == bytesRead + |Rest(dev.state.lines, file.fPos)|
  {
    hide Rest, ReadAt, Device.Valid, Used, Quiet, OnTheWay, Environment.Fails;
    NextRead(dev.state.lines, sent, file.fPos);
    bytesRead, buffer := dev.Read(file, SEND_BUFFER);
  }

  /** What was sent, what was just read and what is left are the goal; an empty read leaves nothing. */
  ghost predicate OnTheWay(goal: Bytes, sent: Bytes, buffer: Bytes, rest: Bytes) {
    goal == sent + buffer + rest && (buffer == [] ==> rest == [])
  }

  lemma SentSoFar(goal: Bytes, sent: Bytes, buffer: Bytes, rest: Bytes)
    requires OnTheWay(goal, sent, buffer, rest)
    ensures sent <= sent + buffer <= goal && goal == sent + buffer + rest
  {
  }

  lemma AllSent(goal: Bytes, sent: Bytes, buffer: Bytes, rest: Bytes)
    requires OnTheWay(goal, sent, buffer, rest) && buffer == []
    ensures sent == goal
  {
  }

  lemma NextRead(lines: seq<Bytes>, sent: Bytes, pos: nat)
    ensures var data := ReadAt(lines, pos, SEND_BUFFER);
            && OnTheWay(sent + Rest(lines, pos), sent, data, Rest(lines, pos + |data|))
            && |Rest(lines, pos)| == |data| + |Rest(lines, pos + |data|)|
  {
    hide ReadAt, From, Flatten;
    ReadIsPrefix(lines, pos, SEND_BUFFER);
    var data := ReadAt(lines, pos, SEND_BUFFER);
    assert sent + data + Rest(lines, pos + |data|) == sent + (data + Rest(lines, pos + |data|));
  }

  /** One call uses one script, and perhaps leaves the other as it is. */
  lemma MoreUsed(a: seq<bool>, a': seq<bool>, a'': seq<bool>, b: seq<bool>, b': seq<bool>, b'': seq<bool>)
    requires Used(a, a') && (a'' == a' || Used(a', a''))
    requires Used(b, b') && (b'' == b' || Used(b', b''))
    ensures Used(a, a'') && (Quiet(a, a'') <==> Quiet(a, a') && Quiet(a', a''))
    ensures Used(b, b'') && (Quiet(b, b'') <==> Quiet(b, b') && Quiet(b', b''))
  {
    UsedTwice(a, a', a'');
    UsedTwice(b, b', b'');
  }

  lemma NothingSent(before: Bytes, whole: Bytes)
    ensures before + [] == before && Extends(before, before, whole)
  {
  }

  /**
    What stdio does with one message: write it in chunks of its own choosing until all of
    it is written or a device write fails; what it could not write is discarded.
   */
  method WriteOut(dev: Device, data: Bytes) returns (ghost chunks: seq<Bytes>, done: nat)
    requires dev.Valid() && NEWLINE !in data[..if data == [] then 0 else |data| - 1]
    modifies dev, dev.ring, dev.ring.entry, dev.slab, dev.env
    ensures dev.Valid() && done <= |data|
    ensures data != [] && done == |data| ==> old(dev.HasRoom(|data|))
    ensures Used(old(dev.env.script), dev.env.script)
    ensures Quiet(old(dev.env.script), dev.env.script) && old(dev.HasRoom(|data|)) ==> done == |data|
    ensures IsChunking(chunks, data[..done])
    ensures dev.state == AcceptAll(old(dev.state), chunks) && dev.writes == old(dev.writes) + chunks
  {
    hide Device.Valid, AcceptAll, Flatten, Accept, Device.NoMemory, Device.CannotCopy, Used, Quiet;
    chunks, done := [], 0;
    NotUsed(dev.env.script);
    NothingWritten(dev.state, dev.writes);
    while done < |data|
      invariant dev.Valid() && done <= |data|
      invariant IsChunking(chunks, data[..done])
      invariant dev.state == AcceptAll(old(dev.state), chunks) && dev.writes == old(dev.writes) + chunks
      invariant Used(old(dev.env.script), dev.env.script)
      invariant done < |data| ==> |dev.state.staging| == old(|dev.state.staging|) + done
      invariant data != [] && done == |data| ==> old(dev.HasRoom(|data|))
      decreases |data| - done
    {
      var n :| 0 < n <= |data| - done && n <= MAX_RW_COUNT;
      var chunk := data[done..done + n];
      MayWrite(dev, n);
      StagedLength(dev.state, data, done, n);
      ghost var before := dev.env.script;
      var outcome := dev.Write(chunk);
      UsedTwice(old(dev.env.script), before, dev.env.script);
      if outcome.retval < 0 {
        return;
      }
      AcceptAllSnoc(old(dev.state), chunks, chunk);
      FlattenSnoc(chunks, chunk);
      assert data[..done + n] == data[..done] + chunk;
      assert old(dev.writes) + chunks + [chunk] == old(dev.writes) + (chunks + [chunk]);
      chunks := chunks + [chunk];
      done := done + n;
    }
  }

  lemma MayWrite(dev: Device, n: nat)
    ensures !dev.NoMemory(n) ==> dev.HasRoom(n)
  {
  }

  /** Before the last byte of a line nothing leaves the staging area. */
  lemma StagedLength(d: Dev, data: Bytes, done: nat, n: nat)
    requires done + n <= |data| && 0 < n && NEWLINE !in data[..|data| - 1]
    ensures done + n < |data| ==> |Accept(d, data[done..done + n]).staging| == |d.staging| + n
  {
    if done + n < |data| {
      assert data[done..done + n][n - 1] == data[..|data| - 1][done + n - 1];
    }
  }

  lemma NothingWritten(d: Dev, writes: seq<Bytes>)
    ensures AcceptAll(d, []) == d && writes + [] == writes && Flatten([]) == []
  {
  }

  /**
    handle_message.  A seek command moves the file or is refused; anything else is written.
    The device is always as `Handle` says for the bytes that were written, and when the
    result is not an error the file stands where the reply begins.  When no call fails, a
    plain message is written whole if there is room for it.  A failed write is noticed when it
    comes before the last `bufferSize` bytes, and not when stdio's buffer of that size holds
    the message until the final flush; a seek is an error exactly when its argument cannot be
    copied or it is out of range.
   */
  method HandleMessage(dev: Device, file: File, message: Bytes, bufferSize: nat) returns (retval: int, done: nat)
    requires dev.Valid() && NEWLINE !in message && file.fPos == 0
    modifies dev, dev.ring, dev.ring.entry, dev.slab, dev.env, file
    ensures dev.Valid() && Used(old(dev.env.script), dev.env.script)
    ensures dev.state == Handle(old(dev.state), message, done).dev
    ensures retval >= 0 ==> Rest(dev.state.lines, file.fPos) == Handle(old(dev.state), message, done).reply
    ensures Decode(CString(message)) == None ==>
              && done <= |Payload(message)|
              && (done == |Payload(message)| ==> retval >= 0 && old(dev.HasRoom(|Payload(message)|)))
              && (Quiet(old(dev.env.script), dev.env.script) && old(dev.HasRoom(|Payload(message)|)) ==>
                   done == |Payload(message)|)
    ensures Decode(CString(message)) == None ==>
              && (done + bufferSize < |Payload(message)| ==> retval < 0)
              && (|Payload(message)| <= bufferSize ==> retval >= 0)
    ensures match Decode(CString(message))
            case None => true
            case Some(seek) =>
              var refused := SeekTo(old(dev.state.lines), seek.command, seek.offset) == None;
              && (retval < 0 <==> old(dev.env.Fails()) || refused)
              && (refused <==> Handle(old(dev.state), message, done).reply == [])
  {
    hide Device.Valid, Decode, Flatten, AcceptAll, Rest, IsChunking, SeekTo, Used, Quiet;
    dev.StateInvariant();
    done := 0;
    match Decode(CString(message)) {
      case Some(seek) =>
        SeekIsRefused(dev.state, seek);
        retval := dev.Ioctl(file, AESDCHAR_IOCSEEKTO, seek.command, seek.offset);
      case None =>
        var data := Payload(message);
        ghost var before, chunks := dev.state, [];
        PayloadShape(message);
        assert data[..|data| - 1] == CString(message);
        chunks, done := WriteOut(dev, data);
        retval := |data|;
        // What is still buffered when fprintf returns is written by the final flush, whose
        // result is ignored; a fault before that makes fprintf fail.
        var buffered := |data|;
        if bufferSize < |data| {
          buffered :| 0 <= buffered <= bufferSize;
        }
        if done + buffered < |data| {
          retval := -1;
        }
        ChunksOfMessage(before, chunks, message, done);
        WholeFile(dev.state.lines);
    }
  }

  /** An accepted seek has something to reply. */
  lemma SeekIsRefused(d: Dev, seek: Seek)
    ensures match SeekTo(d.lines, seek.command, seek.offset)
            case None => true
            case Some(pos) => Rest(d.lines, pos) != []
  {
    hide Rest, Flatten, SeekTo;
    SeekContents(d.lines, seek.command, seek.offset);
  }

  /** However the first `n` bytes of a message are cut, the device takes them as one. */
  lemma ChunksOfMessage(d: Dev, chunks: seq<Bytes>, message: Bytes, n: nat)
    requires NEWLINE !in message && !EndsInNewline(d.staging) && |d.lines| <= 10
    requires n <= |Payload(message)| && IsChunking(chunks, Payload(message)[..n])
    ensures AcceptAll(d, chunks) == Accept(d, Written(message, n))
  {
    PayloadShape(message);
    hide CString;
    var data := Written(message, n);
    assert Payload(message)[..|Payload(message)|] == Payload(message);
    assert data == Payload(message)[..n];
    if n == 0 {
      NoChunksIffNoData(chunks, data);
      AcceptWritten(d, message, 0);
      assert d.staging + data == d.staging;
    } else {
      assert data[..|data| - 1] == Payload(message)[..n - 1];
      ChunksOfOneLine(d.staging, chunks, data);
      DeviceHoldsLastGroups(d.lines, d.staging, chunks);
      AcceptWritten(d, message, n);
      assert n < |Payload(message)| ==> !EndsInNewline(data);
      PushLastN(d.lines, d.staging + data);
      assert d.lines + [] == d.lines;
    }
  }

  /**
    After a failed write, with the unwritten bytes discarded, the next message is stored as
    itself, however it is cut, exactly when the failed message had not got its first byte in;
    otherwise the bytes left behind stand in front of it.
   */
  lemma CleanAfterFaultIff(lines: seq<Bytes>, message: Bytes, done: nat, next: Bytes, chunks: seq<Bytes>)
    requires NEWLINE !in message && NEWLINE !in next && |lines| <= 10
    requires done < |Payload(message)| && IsChunking(chunks, Payload(next))
    ensures var after := AcceptAll(Dev(lines, Payload(message)[..done]), chunks);
            && after == Dev(Push(lines, Payload(message)[..done] + Payload(next)), [])
            && (after.lines == Push(lines, Payload(next)) <==> done == 0)
  {
    PayloadShape(message);
    var left, alone := Payload(message)[..done], Payload(next);
    var d := Dev(lines, left);
    assert !EndsInNewline(left) by {
      assert left != [] ==> left[|left| - 1] in left;
    }
    assert alone[..|alone|] == alone;
    ChunksOfMessage(d, chunks, next, |alone|);
    AcceptWritten(d, next, |alone|);
    hide CString, Payload, Accept;
    var all := left + alone;
    assert done == 0 ==> all == alone;
    assert done != 0 ==> |all| != |alone|;
    assert Push(lines, all)[|Push(lines, all)| - 1] == all;
    assert Push(lines, alone)[|Push(lines, alone)| - 1] == alone;
  }

  /**
    The critical section of thread_routine: handle the message and, unless that failed, send
    the file.  The device is as `Handle` says for what was written, and the client gets a part
    of that reply; when none of the calls fails and there is room, all of both.  After a write
    whose failure is noticed, or a failed seek, nothing is sent; after one in the final flush
    the reply is.  `left` and `clientLeft` are what handling the message left of the scripts.
   */
  method ServeMessage(dev: Device, file: File, client: Client, message: Bytes, bufferSize: nat)
    returns (done: nat, ghost left: seq<bool>, ghost clientLeft: seq<bool>)
    requires dev.Valid() && NEWLINE !in message && file.fPos == 0
    modifies dev, dev.ring, dev.ring.entry, dev.slab, dev.env, file, client, client.env
    ensures dev.Valid()
    ensures Used(old(dev.env.script), left) && Used(left, dev.env.script)
    ensures Used(old(client.env.script), clientLeft) && Used(clientLeft, client.env.script)
    ensures dev.state == Handle(old(dev.state), message, done).dev
    ensures Extends(old(client.sent), client.sent, Handle(old(dev.state), message, done).reply)
    ensures Decode(CString(message)) == None ==>
              && (done + bufferSize < |Payload(message)| ==> client.sent == old(client.sent))
              && (Quiet(old(dev.env.script), left) && old(dev.HasRoom(|Payload(message)|)) ==>
                   done == |Payload(message)|)
              && (done == |Payload(message)| || |Payload(message)| <= bufferSize ==>
                   Quiet(left, dev.env.script) && Quiet(clientLeft, client.env.script) ==>
                     client.sent == old(client.sent) + Handle(old(dev.state), message, done).reply)
    ensures Decode(CString(message)).Some? ==>
              if old(dev.env.Fails()) then client.sent == old(client.sent)
              else Quiet(left, dev.env.script) && Quiet(clientLeft, client.env.script) ==>
                     client.sent == old(client.sent) + Handle(old(dev.state), message, done).reply
  {
    hide Device.Valid, Decode, Handle, Rest, Payload, CString, Used, Quiet, Extends, SeekTo, Environment.Fails;
    NotUsed(client.env.script);
    var retval;
    retval, done := HandleMessage(dev, file, message, bufferSize);
    left, clientLeft := dev.env.script, client.env.script;
    NotUsed(left);
    NotUsed(clientLeft);
    NothingSent(client.sent, Handle(old(dev.state), message, done).reply);
    if retval >= 0 {
      var ok := SendFile(client, dev, file);
    }
  }
}
