/** One client of the socket server (aesdsocket.c, char-device build): the
    readback loop and the receive loop over a device it has to itself. */
module SocketServer {
  import opened ByteStream
  import opened CommandLog
  import opened CharDriver
  import opened SeekCommand
  import opened ReceiveBuffer
  import opened ClientSession

  // ---------------------------------------------------------------- surroundings

  /** What the network answers to one socket write. */
  datatype Response = Interrupted | Broken | Took(n: nat)

  predicate Reliable(script: seq<Response>) {
    forall i :: 0 <= i < |script| ==> !script[i].Broken?
  }

  /** A connected socket: `sent` is what the peer receives. Writes are answered
      by `script`, and taken whole once it is used up. */
  class Socket {
    var sent: Bytes
    var script: seq<Response>

    method Write(bytes: Bytes) returns (n: int, interrupted: bool)
      modifies this
      ensures n <= |bytes|
      ensures if n < 0 then sent == old(sent) else sent == old(sent) + bytes[..n]
      ensures if old(script) == [] then n == |bytes| && script == [] else script == old(script)[1..]
      ensures Reliable(old(script)) && n < 0 ==> interrupted
    {
      interrupted := false;
      if script == [] {
        n := |bytes|;
      } else {
        match script[0] {
          case Interrupted => n, interrupted := -1, true;
          case Broken => n := -1;
          case Took(m) => n := if m < |bytes| then m else |bytes|;
        }
        script := script[1..];
      }
      if n >= 0 {
        sent := sent + bytes[..n];
      }
    }
  }

  class Mutex {
    var held: bool
    ghost var sections: nat   // how often it has been taken

    method Lock()
      requires !held
      modifies this
      ensures held && sections == old(sections) + 1
    {
      held := true;
      sections := sections + 1;
    }

    method Unlock()
      requires held
      modifies this
      ensures !held && sections == old(sections)
    {
      held := false;
    }
  }

  // ---------------------------------------------------------------- readback

  /** The inner loop of sendFileToSocket: resubmits what the socket left over,
      retries when interrupted, gives up on an error. */
  method SendAll(socket: Socket, buffer: array<char>, bytesRead: nat) returns (ok: bool)
    requires 0 < bytesRead <= buffer.Length
    modifies socket
    ensures ok ==> socket.sent == old(socket.sent) + buffer[..bytesRead]
    ensures !ok ==> Between(old(socket.sent), socket.sent, old(socket.sent) + buffer[..bytesRead])
    ensures Reliable(old(socket.script)) ==> ok && Reliable(socket.script)
  {
    var bytesWritten := 0;
    while bytesWritten < bytesRead
      invariant 0 <= bytesWritten <= bytesRead
      invariant socket.sent == old(socket.sent) + buffer[..bytesWritten]
      invariant Reliable(old(socket.script)) ==> Reliable(socket.script)
      decreases bytesRead - bytesWritten, |socket.script|
    {
      var n, interrupted := socket.Write(buffer[bytesWritten..bytesRead]);
      if n < 0 {
        if interrupted {
          continue;
        }
        assert buffer[..bytesWritten] <= buffer[..bytesRead];
        return false;
      }
      SliceOfSlice(buffer[..], bytesWritten, bytesRead, n);
      Assoc(old(socket.sent), buffer[..bytesWritten], buffer[bytesWritten..bytesRead][..n]);
      bytesWritten := bytesWritten + n;
    }
    ok := true;
  }

  /** One round of the outer loop of sendFileToSocket: read what is left of the
      command at the position and send it. -1 is an error, 0 end of file. */
  method RelayCommand(socket: Socket, dev: Device, file: OpenFile, buffer: array<char>, readFails: bool,
                      ghost lines: seq<Bytes>, ghost chunk: Bytes)
    returns (bytesRead: int)
    requires dev.Valid() && lines == Of(dev.history).lines
    requires chunk == ReadChunk(lines, file.pos) && |chunk| <= buffer.Length
    modifies dev`semaphore, dev`acquired, file, socket, buffer
    ensures dev.Valid()
    ensures bytesRead >= 0 ==>
              && bytesRead == |chunk| && file.pos == old(file.pos) + bytesRead
              && socket.sent == old(socket.sent) + chunk
    ensures bytesRead < 0 ==>
              && Between(old(socket.sent), socket.sent, old(socket.sent) + chunk)
              && |socket.sent| - |old(socket.sent)| <= file.pos - old(file.pos) <= |chunk|
    ensures Reliable(old(socket.script)) ==> Reliable(socket.script) && (bytesRead < 0 ==> readFails)
  {
    hide ReadChunk, Of, Device.Valid, Reliable;
    bytesRead := dev.Read(file, buffer, buffer.Length, readFails);
    if bytesRead > 0 {
      var ok := SendAll(socket, buffer, bytesRead);
      if !ok {
        bytesRead := -1;
      }
    }
  }

  /** The same round as part of a replay of `lines`. */
  method ReplayRound(socket: Socket, dev: Device, file: OpenFile, buffer: array<char>, readFails: bool,
                     ghost lines: seq<Bytes>, ghost start: nat, ghost sent: Bytes, ghost pieces: nat)
    returns (bytesRead: int)
    requires dev.Valid() && lines == Of(dev.history).lines
    requires AllWithin(ReadLoop(lines, file.pos), buffer.Length)
    requires Replaying(lines, start, sent, file.pos, socket.sent, pieces)
    modifies dev`semaphore, dev`acquired, file, socket, buffer
    ensures dev.Valid() && pieces <= CAPACITY
    ensures bytesRead > 0 ==>
              && Replaying(lines, start, sent, file.pos, socket.sent, pieces + 1)
              && file.pos == old(file.pos) + bytesRead
              && AllWithin(ReadLoop(lines, file.pos), buffer.Length)
              && |ReadLoop(lines, file.pos)| < |ReadLoop(lines, old(file.pos))|
    ensures bytesRead == 0 ==>
              file.pos == old(file.pos) && Replayed(lines, start, sent, file.pos, socket.sent)
    ensures bytesRead < 0 ==> CutShort(lines, start, sent, file.pos, socket.sent)
    ensures Reliable(old(socket.script)) ==> Reliable(socket.script) && (bytesRead < 0 ==> readFails)
  {
    ghost var pos, now := file.pos, socket.sent;
    hide AllLines, AllWithin, ReadChunk, ReadLoop, Flatten, Of, Drop;
    hide Device.Valid, Reliable, Replaying, Replayed, Between, CutShort;
    ReplayIsShort(dev.history, start, sent, pos, now, pieces);
    ghost var chunk := ReadChunk(lines, pos);
    assert |chunk| <= buffer.Length by {
      ReplayFits(lines, pos, pos + |chunk|, buffer.Length);
    }
    bytesRead := RelayCommand(socket, dev, file, buffer, readFails, lines, chunk);
    if bytesRead > 0 {
      ReplayStep(lines, start, sent, pos, now, pieces, file.pos, socket.sent);
      ReplayFits(lines, pos, file.pos, buffer.Length);
    } else if bytesRead == 0 {
      ReplayEnds(lines, start, sent, pos, now, pieces);
    } else {
      ReplayFailsWithin(lines, start, sent, pos, now, pieces, file.pos, socket.sent);
    }
  }

  /** Asking for the position does not move it, and a seek back to it succeeds
      when it is inside, or fails without moving when it never moved. */
  lemma AskAndRestore(start: nat, size: nat)
    ensures FixedSizeLlseek(start, 0, SeekCur, size) == (start, start)
    ensures forall pos: nat :: pos == start || start <= size ==>
              FixedSizeLlseek(pos, start, SeekSet, size).0 == start
  {
  }

  /** sendFileToSocket: from the current position, everything up to the end of
      the device, whatever partial writes and interruptions the socket makes of
      it; then back to where the position was, even when that is past the end. On
      an error the position stays where reading stopped. The commands to be read
      must fit the buffer. */
  method SendFileToSocket(socket: Socket, dev: Device, file: OpenFile, logLock: Mutex, readFails: seq<bool>)
    returns (ret: int, pieces: nat)
    requires dev.Valid() && AllWithin(ReadLoop(Of(dev.history).lines, file.pos), BUFFER_SIZE)
    requires logLock.held
    modifies dev`semaphore, dev`acquired, file, socket
    ensures dev.Valid()
    ensures pieces <= CAPACITY
    ensures ret >= 0 ==>
              && socket.sent == old(socket.sent) + Drop(dev.Text(), old(file.pos))
              && ret == |Drop(dev.Text(), old(file.pos))|
              && file.pos == old(file.pos)
    ensures ret < 0 ==>
              CutShort(Of(dev.history).lines, old(file.pos), old(socket.sent), file.pos, socket.sent)
    ensures Reliable(old(socket.script)) ==> Reliable(socket.script) && (readFails == [] ==> ret >= 0)
  {
    ghost var lines, start, sent := Of(dev.history).lines, file.pos, socket.sent;
    hide AllWithin, ReadChunk, ReadLoop, Flatten, Of, Drop, Device.Valid, Reliable, CutShort;
    var buffer := new char[BUFFER_SIZE];
    var totalBytesWritten := 0;
    pieces := 0;
    AskAndRestore(file.pos, |dev.Text()|);
    hide FixedSizeLlseek;
    var externalPosition := dev.Llseek(file, 0, SeekCur);
    assert Replaying(lines, start, sent, file.pos, socket.sent, pieces);
    hide Replaying;
    while true
      invariant dev.Valid() && file.pos == start + totalBytesWritten
      invariant Replaying(lines, start, sent, file.pos, socket.sent, pieces)
      invariant AllWithin(ReadLoop(lines, file.pos), BUFFER_SIZE)
      invariant Reliable(old(socket.script)) ==> Reliable(socket.script)
      decreases |ReadLoop(lines, file.pos)|
    {
      var fails := pieces < |readFails| && readFails[pieces];
      var bytesRead := ReplayRound(socket, dev, file, buffer, fails, lines, start, sent, pieces);
      if bytesRead < 0 {
        return -1, pieces;
      } else if bytesRead == 0 {
        break;
      }
      pieces := pieces + 1;
      totalBytesWritten := totalBytesWritten + bytesRead;
    }
    var restored := dev.Llseek(file, externalPosition, SeekSet);
    ret := totalBytesWritten;
  }

  // ---------------------------------------------------------------- receiving

  /** The write loop for a text line, while the log lock is held. It ends early
      on an error; the driver never reports an interruption. */
  method WriteLine(dev: Device, logLock: Mutex, line: Bytes, faults: WriteFaults)
    requires dev.Valid() && IsLine(line) && logLock.held
    modifies dev, dev.ring, dev.ring.entry, dev.heap
    ensures dev.Valid() && dev.history == old(dev.history) + if Takes(faults) then line else []
  {
    hide Device.Valid, Accepted, EndsCommand;
    LineIsAcceptedWhole(line);
    assert dev.history + [] == dev.history;
    var totalWritten := 0;
    while totalWritten < |line|
      invariant dev.Valid() && 0 <= totalWritten <= |line|
      invariant totalWritten == 0 ==> dev.history == old(dev.history)
      invariant totalWritten != 0 ==>
                  totalWritten == |line| && Takes(faults) && dev.history == old(dev.history) + line
    {
      var moves: bool := *;
      var written := dev.Write(line[totalWritten..], faults, moves);
      if written <= 0 {
        break;
      }
      totalWritten := totalWritten + written;
    }
  }

  /** How a readback ended: complete and back where it started, or cut short. */
  predicate Ended(lines: seq<Bytes>, asked: nat, sent: Bytes, pos: nat, now: Bytes, complete: bool) {
    || (pos == asked && now == sent + Drop(Flatten(lines), asked))
    || (!complete && CutShort(lines, asked, sent, pos, now))
  }

  /** What receivePackets does with one line: a seek or a text command under
      the log lock, and then the readback under the log lock. */
  method HandleLine(socket: Socket, dev: Device, file: OpenFile, logLock: Mutex, line: Bytes, f: TurnFaults)
    requires dev.Valid() && !logLock.held && IsLine(line)
    requires AllWithin(ReadLoop(Of(Recorded(dev.history, line, f)).lines,
                                Asked(Of(dev.history).lines, file.pos, line, f)), BUFFER_SIZE)
    modifies dev, dev.ring, dev.ring.entry, dev.heap, file, socket, logLock
    ensures dev.Valid() && !logLock.held
    ensures dev.history == Recorded(old(dev.history), line, f)
    ensures Ended(Of(dev.history).lines, Asked(Of(old(dev.history)).lines, old(file.pos), line, f),
                  old(socket.sent), file.pos, socket.sent, Reliable(old(socket.script)) && f == NO_TURN_FAULTS)
    ensures Reliable(old(socket.script)) ==> Reliable(socket.script)
    ensures logLock.sections == old(logLock.sections) + if DispatchOf(line).Malformed? then 1 else 2
  {
    hide Device.Valid, Reliable, DispatchOf, Lines, Tail, LastTen, SeekTo, Flatten, Drop, CutShort, IsLine, Accepted;
    assert dev.history + [] == dev.history;
    match DispatchOf(line) {
      case Malformed =>
      case Seek(cmd, offset) =>
        logLock.Lock();
        var result := dev.Ioctl(file, IocSeekTo(cmd, offset), f.seek);
        logLock.Unlock();
      case Text =>
        logLock.Lock();
        WriteLine(dev, logLock, line, f.write);
        logLock.Unlock();
    }
    logLock.Lock();
    var sent, pieces := SendFileToSocket(socket, dev, file, logLock, f.copies);
    logLock.Unlock();
  }

  /** What the receive loop has done: some trace of turns, one for each of
      `lines`, that ends in the present state; and, if nothing has failed, in
      the session of the contract. */
  ghost predicate Served(start: Session, lines: seq<Bytes>, faults: seq<TurnFaults>, trace: seq<Session>,
                         sent: Bytes, history: Bytes, pos: nat, now: Bytes, clean: bool) {
    && Chain(start, lines, faults, trace) && |trace| == |lines| + 1
    && var s := trace[|lines|];
       && history == s.history && pos == s.pos && now == sent + Flatten(s.replies)
       && (clean ==> s == Serve(start, lines))
  }

  lemma NothingServed(start: Session, faults: seq<TurnFaults>, sent: Bytes, clean: bool)
    requires start.replies == []
    ensures Served(start, Lines([]), faults, [start], sent, start.history, start.pos, sent, clean)
  {
    assert sent + [] == sent;
  }

  lemma EndedIsReadBack(lines: seq<Bytes>, asked: nat, sent: Bytes, pos: nat, now: Bytes, complete: bool)
    returns (reply: Bytes)
    requires Ended(lines, asked, sent, pos, now, complete)
    ensures now == sent + reply && ReadBack(lines, asked, reply, pos)
    ensures complete ==> pos == asked && reply == Drop(Flatten(lines), asked)
  {
    hide Drop, Flatten;
    reply := now[|sent|..];
    var full := Drop(Flatten(lines), asked);
    if pos == asked && now == sent + full {
      assert reply == full;
    } else {
      assert now == sent + reply;
      assert (sent + full)[|sent|..] == full;
      assert reply == (sent + full)[..|now|][|sent|..];
    }
  }

  /** How one line was handled is a turn. */
  lemma EndedIsTurn(s: Session, line: Bytes, f: TurnFaults, now: Bytes,
                    newHistory: Bytes, newPos: nat, newNow: Bytes, complete: bool)
    returns (t: Session, reply: Bytes)
    requires newHistory == Recorded(s.history, line, f)
    requires Ended(Of(newHistory).lines, Asked(Of(s.history).lines, s.pos, line, f), now, newPos, newNow, complete)
    ensures TurnMay(s, line, f, t) && t == Session(newHistory, newPos, s.replies + [reply])
    ensures newNow == now + reply
    ensures complete && f == NO_TURN_FAULTS ==> t == Turn(s, line)
  {
    var asked := Asked(Of(s.history).lines, s.pos, line, f);
    hide Recorded, Of, Ended, ReadBack;
    reply := EndedIsReadBack(Of(newHistory).lines, asked, now, newPos, newNow, complete);
    t := Session(newHistory, newPos, s.replies + [reply]);
    assert t.replies[..|s.replies|] == s.replies;
    if complete && f == NO_TURN_FAULTS {
      CompleteTurn(s, line, f, t);
    }
  }

  /** One more turn of the trace. */
  lemma ServedSnoc(start: Session, lines: seq<Bytes>, faults: seq<TurnFaults>, trace: seq<Session>,
                   sent: Bytes, history: Bytes, pos: nat, now: Bytes, clean: bool,
                   line: Bytes, t: Session, reply: Bytes, newNow: Bytes)
    requires Served(start, lines, faults, trace, sent, history, pos, now, clean)
    requires TurnMay(trace[|lines|], line, FaultsAt(faults, |lines|), t)
    requires t.replies == trace[|lines|].replies + [reply] && newNow == now + reply
    requires clean ==> t == Turn(trace[|lines|], line)
    ensures Served(start, lines + [line], faults, trace + [t], sent, t.history, t.pos, newNow, clean)
  {
    var s := trace[|lines|];
    ServeSnoc(start, lines, line);
    ChainSnoc(start, lines, faults, trace, line, t);
    hide TurnMay, Chain, Serve, Turn, FaultsAt;
    FlattenSnoc(s.replies, reply);
    hide Flatten;
    Assoc(sent, Flatten(s.replies), reply);
    assert (trace + [t])[|lines + [line]|] == t;
  }

  /** Receiving one more byte: no new line, unless it completes one. */
  lemma ByteReceived(input: Bytes, i: nat)
    requires i < |input|
    ensures input[..i+1] == input[..i] + [input[i]]
    ensures input[i] == NEWLINE ==>
              IsLine(Tail(input[..i]) + [NEWLINE])
              && Lines(input[..i+1]) == Lines(input[..i]) + [Tail(input[..i]) + [NEWLINE]]
    ensures input[i] != NEWLINE ==> Lines(input[..i+1]) == Lines(input[..i])
  {
    assert input[..i+1] == input[..i] + [input[i]];
    AppendByte(input[..i], input[i]);
    SplitExact(input[..i]);
    var l := Tail(input[..i]) + [NEWLINE];
    hide Lines, Tail;
    assert l[..|l|-1] == Tail(input[..i]);
  }

  lemma LinesUpTo(input: Bytes, i: nat)
    requires i <= |input|
    ensures |Lines(input[..i])| <= |Lines(input)|
    ensures Lines(input)[..|Lines(input[..i])|] == Lines(input[..i])
  {
    assert input == input[..i] + input[i..];
    LinesGrow(input[..i], input[i..]);
  }

  /** After the line just completed, what is to be read back fits. */
  lemma LineFits(start: Session, input: Bytes, i: nat, faults: seq<TurnFaults>, trace: seq<Session>, line: Bytes)
    requires i < |input| && Lines(input[..i+1]) == Lines(input[..i]) + [line]
    requires Chain(start, Lines(input[..i]), faults, trace) && |trace| == |Lines(input[..i])| + 1
    requires ReadbacksFit(start.history, start.pos, Lines(input), faults, BUFFER_SIZE)
    ensures var n := |Lines(input[..i])|;
            var s, f := trace[n], FaultsAt(faults, n);
            AllWithin(ReadLoop(Of(Recorded(s.history, line, f)).lines, Asked(Of(s.history).lines, s.pos, line, f)),
                      BUFFER_SIZE)
  {
    hide Lines, Of, Recorded, Asked, ReadLoop, AllWithin, Chain, ReadbacksFit;
    var before, n := Lines(input[..i]), |Lines(input[..i])|;
    LinesUpTo(input, i + 1);
    LinesUpTo(input, i);
    assert Lines(input)[n] == Lines(input)[..n+1][n] == line;
    ChainLonger(start, before, Lines(input), faults, trace);
    NextReadbackFits(start, Lines(input), faults, trace, n, BUFFER_SIZE);
  }

  lemma LineServed(start: Session, lines: seq<Bytes>, faults: seq<TurnFaults>, trace: seq<Session>,
                   sent: Bytes, history: Bytes, pos: nat, now: Bytes, clean: bool,
                   line: Bytes, newHistory: Bytes, newPos: nat, newNow: Bytes)
    returns (t: Session)
    requires Served(start, lines, faults, trace, sent, history, pos, now, clean)
    requires clean ==> FaultsAt(faults, |lines|) == NO_TURN_FAULTS
    requires newHistory == Recorded(history, line, FaultsAt(faults, |lines|))
    requires Ended(Of(newHistory).lines, Asked(Of(history).lines, pos, line, FaultsAt(faults, |lines|)),
                   now, newPos, newNow, clean)
    ensures Served(start, lines + [line], faults, trace + [t], sent, newHistory, newPos, newNow, clean)
  {
    var reply;
    t, reply := EndedIsTurn(trace[|lines|], line, FaultsAt(faults, |lines|), now, newHistory, newPos, newNow, clean);
    hide Chain, TurnMay, Recorded, Asked, Of, Ended, Turn, Serve, FaultsAt, Flatten;
    ServedSnoc(start, lines, faults, trace, sent, history, pos, now, clean, line, t, reply, newNow);
  }

  /** One line as the next of those served. */
  method ServeLine(socket: Socket, dev: Device, file: OpenFile, logLock: Mutex, line: Bytes,
                   faults: seq<TurnFaults>, ghost start: Session, ghost lines: seq<Bytes>, ghost trace: seq<Session>,
                   ghost sent: Bytes, n: nat, ghost clean: bool)
    returns (ghost longer: seq<Session>)
    requires dev.Valid() && !logLock.held && IsLine(line) && n == |lines|
    requires AllWithin(ReadLoop(Of(Recorded(dev.history, line, FaultsAt(faults, n))).lines,
                                Asked(Of(dev.history).lines, file.pos, line, FaultsAt(faults, n))), BUFFER_SIZE)
    requires clean ==> faults == [] && Reliable(socket.script)
    requires Served(start, lines, faults, trace, sent, dev.history, file.pos, socket.sent, clean)
    modifies dev, dev.ring, dev.ring.entry, dev.heap, file, socket, logLock
    ensures dev.Valid() && !logLock.held && (clean ==> Reliable(socket.script))
    ensures Served(start, lines + [line], faults, longer, sent, dev.history, file.pos, socket.sent, clean)
  {
    hide Device.Valid, Reliable, Served, Recorded, Asked, Of, Flatten, Drop, Lines, AllWithin, IsLine;
    ghost var history, pos, now := dev.history, file.pos, socket.sent;
    HandleLine(socket, dev, file, logLock, line, FaultsAt(faults, n));
    ghost var t := LineServed(start, lines, faults, trace, sent, history, pos, now, clean,
                              line, dev.history, file.pos, socket.sent);
    longer := trace + [t];
  }

  /** The body of the receive loop for byte `i` of the stream, the line it may
      complete being number `n`. It stops the loop when the buffer cannot grow. */
  method ReceiveByte(socket: Socket, dev: Device, file: OpenFile, logLock: Mutex, buffer: LineBuffer,
                     input: Bytes, i: nat, n: nat, faults: seq<TurnFaults>, reallocFails: bool,
                     ghost start: Session, ghost trace: seq<Session>, ghost sent: Bytes, ghost clean: bool)
    returns (ok: bool, ghost longer: seq<Session>)
    requires i < |input| && buffer.Valid() && buffer.HoldsTail() && buffer.received == input[..i]
    requires dev.Valid() && !logLock.held && n == |Lines(input[..i])|
    requires clean ==> faults == [] && Reliable(socket.script)
    requires Served(start, Lines(input[..i]), faults, trace, sent, dev.history, file.pos, socket.sent, clean)
    requires ReadbacksFit(start.history, start.pos, Lines(input), faults, BUFFER_SIZE)
    modifies dev, dev.ring, dev.ring.entry, dev.heap, file, socket, logLock, buffer, buffer.data
    ensures buffer.Valid() && (buffer.data == old(buffer.data) || fresh(buffer.data))
    ensures dev.Valid() && !logLock.held && (clean ==> Reliable(socket.script))
    ensures ok <==> !(MustGrow(input[..i]) && reallocFails)
    ensures ok ==>
              && buffer.HoldsTail() && buffer.received == input[..i+1]
              && Served(start, Lines(input[..i+1]), faults, longer, sent, dev.history, file.pos, socket.sent, clean)
    ensures !ok ==>
              && buffer.received == input[..i]
              && Served(start, Lines(input[..i]), faults, longer, sent, dev.history, file.pos, socket.sent, clean)
  {
    hide Device.Valid, Reliable, DispatchOf, Tail, LastTen, Lines, AllWithin, Recorded, Of, ReadbacksFit, Chain, IsLine;
    hide LineBuffer.Valid, LineBuffer.HoldsTail, MustGrow;
    var ch := input[i];
    longer := trace;
    ByteReceived(input, i);
    ok := buffer.Push(ch, reallocFails);
    if ok && ch == NEWLINE {
      var line := buffer.data[..buffer.len];
      LineFits(start, input, i, faults, trace, line);
      hide Served;
      longer := ServeLine(socket, dev, file, logLock, line, faults, start, Lines(input[..i]), trace, sent, n, clean);
      buffer.Reset();
    }
  }

  /** The buffer would have to grow for byte `i`, and cannot. */
  predicate GrowthFails(input: Bytes, i: nat, reallocFails: seq<bool>) {
    i < |reallocFails| && reallocFails[i] && i <= |input| && MustGrow(input[..i])
  }

  /** How many bytes are received: all, or those before the first failure to grow. */
  predicate StopsAt(input: Bytes, i: nat, mallocFails: bool, reallocFails: seq<bool>) {
    && i <= |input|
    && if mallocFails then i == 0
       else
         && (forall j: nat :: j < i ==> !GrowthFails(input, j, reallocFails))
         && (i < |input| ==> GrowthFails(input, i, reallocFails))
  }

  /** The receive loop, up to the end of the stream or the failure to grow. */
  method ReceiveLoop(socket: Socket, dev: Device, file: OpenFile, logLock: Mutex, buffer: LineBuffer,
                     input: Bytes, faults: seq<TurnFaults>, reallocFails: seq<bool>,
                     ghost start: Session, ghost sent: Bytes, ghost clean: bool)
    returns (i: nat, ghost trace: seq<Session>)
    requires buffer.Valid() && buffer.HoldsTail() && buffer.received == []
    requires dev.Valid() && !logLock.held && (clean ==> faults == [] && Reliable(socket.script))
    requires Served(start, Lines([]), faults, [start], sent, dev.history, file.pos, socket.sent, clean)
    requires ReadbacksFit(start.history, start.pos, Lines(input), faults, BUFFER_SIZE)
    modifies dev, dev.ring, dev.ring.entry, dev.heap, file, socket, logLock, buffer, buffer.data
    ensures StopsAt(input, i, false, reallocFails) && buffer.Valid() && buffer.received == input[..i]
    ensures dev.Valid() && !logLock.held
    ensures Served(start, Lines(input[..i]), faults, trace, sent, dev.history, file.pos, socket.sent, clean)
  {
    hide Device.Valid, Reliable, Served, Lines, Longest, ReadbacksFit, LineBuffer.Valid, LineBuffer.HoldsTail;
    hide Capacity, MustGrow;
    trace := [start];
    NoLines();
    var n, ok := 0, true;
    i := 0;
    while i < |input| && ok
      invariant i <= |input| && buffer.Valid() && buffer.received == input[..i] && (ok ==> buffer.HoldsTail())
      invariant (buffer.data == old(buffer.data) || fresh(buffer.data)) && n == |Lines(input[..i])|
      invariant dev.Valid() && !logLock.held && (clean ==> Reliable(socket.script))
      invariant forall j: nat :: j < i ==> !GrowthFails(input, j, reallocFails)
      invariant !ok ==> i < |input| && GrowthFails(input, i, reallocFails)
      invariant Served(start, Lines(input[..i]), faults, trace, sent, dev.history, file.pos, socket.sent, clean)
      decreases |input| - i, ok
    {
      var fails := i < |reallocFails| && reallocFails[i];
      ByteReceived(input, i);
      ok, trace := ReceiveByte(socket, dev, file, logLock, buffer, input, i, n, faults, fails,
                               start, trace, sent, clean);
      if ok {
        n := if input[i] == NEWLINE then n + 1 else n;
        i := i + 1;
      }
    }
  }

  lemma NoLines()
    ensures Lines([]) == []
  {
  }

  /** receivePackets, for every byte stream and whatever fails. It receives all
      bytes, or those before the first failure to grow the buffer, and device,
      position and socket are left as by one turn for each line completed by
      then, in order; when nothing fails those turns are the ones of the
      contract. What each readback has to read must fit the buffer. */
  method ReceivePackets(socket: Socket, dev: Device, file: OpenFile, logLock: Mutex, input: Bytes,
                        faults: seq<TurnFaults>, mallocFails: bool, reallocFails: seq<bool>)
    returns (ghost i: nat, ghost trace: seq<Session>, ghost capacity: nat)
    requires dev.Valid() && !logLock.held
    requires ReadbacksFit(dev.history, file.pos, Lines(input), faults, BUFFER_SIZE)
    modifies dev, dev.ring, dev.ring.entry, dev.heap, file, socket, logLock
    ensures dev.Valid() && !logLock.held
    ensures StopsAt(input, i, mallocFails, reallocFails)
    ensures Served(Session(old(dev.history), old(file.pos), []), Lines(input[..i]), faults, trace,
                   old(socket.sent), dev.history, file.pos, socket.sent,
                   faults == [] && Reliable(old(socket.script)))
    ensures capacity > BUFFER_SIZE ==> capacity < 2 * Longest(input[..i])
  {
    ghost var start, sent := Session(dev.history, file.pos, []), socket.sent;
    ghost var clean := faults == [] && Reliable(socket.script);
    hide Device.Valid, Reliable, Served, Lines, Longest, ReadbacksFit;
    hide LineBuffer.Valid, LineBuffer.HoldsTail, GrowthFails;
    trace, capacity, i := [start], 0, 0;
    NothingServed(start, faults, sent, clean);
    if !mallocFails {
      var buffer := new LineBuffer();
      i, trace := ReceiveLoop(socket, dev, file, logLock, buffer, input, faults, reallocFails, start, sent, clean);
      buffer.CapacityBound();
      capacity := buffer.data.Length;
    }
  }

  /** A trace of some lines is a trace of the beginning of more. */
  lemma ChainLonger(start: Session, some: seq<Bytes>, every: seq<Bytes>, faults: seq<TurnFaults>, trace: seq<Session>)
    requires Chain(start, some, faults, trace) && some <= every
    ensures Chain(start, every, faults, trace)
  {
    hide TurnMay;
    forall k | 0 <= k < |trace| - 1
      ensures TurnMay(trace[k], every[k], FaultsAt(faults, k), trace[k+1])
    {
      assert every[k] == some[k];
    }
  }
}
