/** The server's client threads (aesdsocket.c, char-device build) over one
    device: every interleaving of their receive steps and of the driver calls
    they make while holding the log lock. A driver call is one step: the
    semaphore justifies that for writes, reads and length queries, and the log
    lock for seeks. */
module ClientThreads {
  import opened ByteStream
  import opened CommandLog
  import opened SeekCommand
  import opened ClientSession

  // ---------------------------------------------------------------- threads

  /** Where a client thread is. It holds the log lock in Writing, Seeking and
      Unlocking (the first section of a line), and in Sending and Releasing
      (the readback section). */
  datatype Phase =
    | Receiving
    | Dispatching
    | Writing(written: nat)
    | Seeking(cmd: nat, offset: nat)
    | Unlocking
    | Answering
    | Sending(saved: nat, pieces: nat)
    | Releasing

  predicate Locked(p: Phase) {
    p.Writing? || p.Seeking? || p.Unlocking? || p.Sending? || p.Releasing?
  }

  /** The record of one line: the client's position before it, how long the log
      was at its first section, whether the line was stored or its seek request
      refused, the position the readback started from, how long the log was
      then, the reply, whether it was cut short, and the position left behind. */
  datatype TurnRecord = TurnRecord(line: Bytes, before: nat, at: nat, stored: bool, refused: bool, pos: nat,
                       until: nat, reply: Bytes, cut: bool, after: nat)

  datatype Client = Client(unread: Bytes, buffer: Bytes, pos: nat, phase: Phase, sent: Bytes,
                           seen: Bytes, turns: seq<TurnRecord>, draft: TurnRecord)

  /** `log` records every command that entered the ring, with the client whose
      write put it there. */
  datatype Server = Server(dev: Log, lock: Option<nat>, clients: seq<Client>, log: seq<(nat, Bytes)>)

  const NO_TURN := TurnRecord([], 0, 0, false, false, 0, 0, [], false, 0)

  function Connect(stream: Bytes): Client {
    Client(stream, [], 0, Receiving, [], [], [], NO_TURN)
  }

  function Start(streams: seq<Bytes>): Server {
    Server(EMPTY, None, seq(|streams|, i requires 0 <= i < |streams| => Connect(streams[i])), [])
  }

  function Put(s: Server, i: nat, c: Client): Server
    requires i < |s.clients|
  {
    s.(clients := s.clients[i := c])
  }

  /** One byte from recv. */
  function Receive(c: Client): Client
    requires c.unread != []
  {
    var ch := c.unread[0];
    c.(unread := c.unread[1..], seen := c.seen + [ch], buffer := c.buffer + [ch],
       phase := if ch == NEWLINE then Dispatching else Receiving)
  }

  /** The start of the first section of a line. */
  function Begin(c: Client, at: nat, phase: Phase): Client {
    c.(phase := phase, draft := TurnRecord(c.buffer, c.pos, at, false, false, c.pos, at, [], false, c.pos))
  }

  /** One write call on what is left of the line; an error ends the loop. */
  function WriteOnce(s: Server, i: nat, c: Client, written: nat, faults: WriteFaults): Server
    requires i < |s.clients| && written <= |c.buffer|
  {
    var rest := c.buffer[written..];
    var n := Accepted(rest);
    var commits := Takes(faults) && EndsCommand(rest, n);
    var result := WriteResult(rest, faults);
    Put(s, i, c.(phase := if result <= 0 then Unlocking else Writing(written + result),
                 draft := c.draft.(stored := c.draft.stored || commits)))
    .(dev := FaultyWrite(s.dev, rest, faults),
      log := s.log + if commits then [(i, s.dev.pending + rest[..n])] else [])
  }

  /** The ioctl call of a seek line. */
  function SeekOnce(dev: Log, c: Client, cmd: nat, offset: nat, fails: bool): Client {
    var pos := if fails then c.pos else SeekTo(dev.lines, c.pos, cmd, offset);
    c.(phase := Unlocking, pos := pos, draft := c.draft.(pos := pos, after := pos, refused := fails))
  }

  /** How one round of the readback loop goes: the command is read and sent, or
      the read fails, or the socket fails after taking some of it. */
  datatype Relay = Relayed | ReadFails | SendFails(taken: nat)

  /** One round of the readback loop, or its end with the restoring seek. An
      error ends it without that seek. */
  function SendOnce(dev: Log, c: Client, saved: nat, pieces: nat, relay: Relay): Client {
    var chunk := ReadChunk(dev.lines, c.pos);
    if chunk == [] then
      c.(phase := Releasing, pos := FixedSizeLlseek(c.pos, saved, SeekSet, |Contents(dev)|).0)
    else
      match relay
      case Relayed =>
        c.(phase := Sending(saved, pieces + 1), pos := c.pos + |chunk|, sent := c.sent + chunk,
           draft := c.draft.(reply := c.draft.reply + chunk))
      case ReadFails =>
        c.(phase := Releasing, draft := c.draft.(cut := true, after := c.pos))
      case SendFails(taken) =>
        var part := chunk[..if taken < |chunk| then taken else |chunk|];
        c.(phase := Releasing, pos := c.pos + |chunk|, sent := c.sent + part,
           draft := c.draft.(reply := c.draft.reply + part, cut := true, after := c.pos + |chunk|))
  }

  /** What the surroundings answer should the step be a write, the copy of a
      seek request, or a round of the readback. */
  datatype Env = Env(write: WriteFaults, seekFails: bool, relay: Relay)

  const NO_FAILURE := Env(NO_FAULTS, false, Relayed)

  /** The end of a turn. */
  function Finish(c: Client): (d: Client)
    ensures d.phase.Receiving?
  {
    c.(phase := Receiving, buffer := [], turns := c.turns + [c.draft])
  }

  /** Client `i` takes its next step. A thread waits where it is for the lock,
      and for input that does not come. */
  function Step(s: Server, i: nat, env: Env): (t: Server)
    requires i < |s.clients|
    ensures |t.clients| == |s.clients|
  {
    var c := s.clients[i];
    match c.phase
    case Receiving =>
      if c.unread == [] then s else Put(s, i, Receive(c))
    case Dispatching =>
      (match DispatchOf(c.buffer)
       case Malformed => Put(s, i, Begin(c, |s.log|, Answering))
       case Seek(cmd, offset) =>
         if s.lock.Some? then s
         else Put(s, i, Begin(c, |s.log|, Seeking(cmd, offset))).(lock := Some(i))
       case Text =>
         if s.lock.Some? then s
         else Put(s, i, Begin(c, |s.log|, Writing(0))).(lock := Some(i)))
    case Writing(written) =>
      if written >= |c.buffer| then Put(s, i, c.(phase := Unlocking))
      else WriteOnce(s, i, c, written, env.write)
    case Seeking(cmd, offset) =>
      Put(s, i, SeekOnce(s.dev, c, cmd, offset, env.seekFails))
    case Unlocking =>
      Put(s, i, c.(phase := Answering)).(lock := None)
    case Answering =>
      if s.lock.Some? then s
      else Put(s, i, c.(phase := Sending(c.pos, 0), draft := c.draft.(until := |s.log|))).(lock := Some(i))
    case Sending(saved, pieces) =>
      Put(s, i, SendOnce(s.dev, c, saved, pieces, env.relay))
    case Releasing =>
      Put(s, i, Finish(c)).(lock := None)
  }

  type Schedule = seq<(nat, Env)>

  predicate Fits(schedule: Schedule, n: nat) {
    forall k :: 0 <= k < |schedule| ==> schedule[k].0 < n
  }

  function Run(s: Server, schedule: Schedule): (r: Server)
    requires Fits(schedule, |s.clients|)
    ensures |r.clients| == |s.clients|
  {
    if schedule == [] then s
    else
      var r := Run(s, schedule[..|schedule|-1]);
      var (i, env) := schedule[|schedule|-1];
      Step(r, i, env)
  }

  // ---------------------------------------------------------------- what holds

  /** The committed commands, whoever wrote them. */
  function Commands(log: seq<(nat, Bytes)>): seq<Bytes> {
    if log == [] then [] else Commands(log[..|log|-1]) + [log[|log|-1].1]
  }

  /** Those that client `i` wrote. */
  function Mine(log: seq<(nat, Bytes)>, i: nat): seq<Bytes> {
    if log == [] then []
    else Mine(log[..|log|-1], i) + if log[|log|-1].0 == i then [log[|log|-1].1] else []
  }

  function Window(log: seq<(nat, Bytes)>): seq<Bytes> {
    LastTen(Commands(log))
  }

  /** The lines of finished turns; those of them that were stored; the replies. */
  function TurnLines(turns: seq<TurnRecord>): seq<Bytes> {
    if turns == [] then [] else TurnLines(turns[..|turns|-1]) + [turns[|turns|-1].line]
  }

  function StoredLines(turns: seq<TurnRecord>): seq<Bytes> {
    if turns == [] then []
    else StoredLines(turns[..|turns|-1]) + if turns[|turns|-1].stored then [turns[|turns|-1].line] else []
  }

  function Replies(turns: seq<TurnRecord>): seq<Bytes> {
    if turns == [] then [] else Replies(turns[..|turns|-1]) + [turns[|turns|-1].reply]
  }

  function PosNow(turns: seq<TurnRecord>): nat {
    if turns == [] then 0 else turns[|turns|-1].after
  }

  function UntilNow(turns: seq<TurnRecord>): nat {
    if turns == [] then 0 else turns[|turns|-1].until
  }

  /** The first section of the turn did what the line asks for. */
  predicate FirstOk(log: seq<(nat, Bytes)>, i: nat, t: TurnRecord) {
    && t.at <= |log|
    && t.pos == (if t.refused then t.before else PosAfter(Window(log[..t.at]), t.before, t.line))
    && (t.stored ==> DispatchOf(t.line).Text? && t.at < |log| && log[t.at] == (i, t.line))
  }

  /** A finished turn: its reply is the log as it was at the readback, last ten
      commands, from the position asked for, which is also the position left;
      or, when it was cut short, a beginning of that. */
  predicate TurnOk(log: seq<(nat, Bytes)>, i: nat, t: TurnRecord) {
    && FirstOk(log, i, t)
    && t.at <= t.until <= |log| && (t.stored ==> t.at < t.until)
    && ReadBack(Window(log[..t.until]), t.pos, t.reply, t.after)
    && (!t.cut ==> t.reply == Drop(Flatten(Window(log[..t.until])), t.pos) && t.after == t.pos)
  }

  /** Each turn starts at the position, and no earlier in the log, where the one
      before ended. */
  predicate TurnsOk(log: seq<(nat, Bytes)>, i: nat, turns: seq<TurnRecord>) {
    && (forall k :: 0 <= k < |turns| ==> TurnOk(log, i, turns[k]))
    && (forall k :: 0 <= k < |turns| ==> Follows(turns[..k], turns[k]))
  }

  predicate Follows(turns: seq<TurnRecord>, t: TurnRecord) {
    t.before == PosNow(turns) && UntilNow(turns) <= t.at
  }

  predicate Busy(p: Phase) {
    !p.Receiving? && !p.Dispatching?
  }

  /** Every byte received is in the line of a turn or in the buffer. */
  predicate SeenOk(c: Client) {
    if c.phase.Receiving? then Lines(c.seen) == TurnLines(c.turns) && Tail(c.seen) == c.buffer
    else IsLine(c.buffer) && Lines(c.seen) == TurnLines(c.turns) + [c.buffer] && Tail(c.seen) == []
  }

  /** The client's part of the log is its stored lines, in its own order. */
  predicate StoredOk(log: seq<(nat, Bytes)>, i: nat, c: Client) {
    Mine(log, i) == StoredLines(c.turns) + if Busy(c.phase) && c.draft.stored then [c.buffer] else []
  }

  predicate SentOk(c: Client) {
    c.sent == Flatten(Replies(c.turns)) + if c.phase.Sending? || c.phase.Releasing? then c.draft.reply else []
  }

  predicate PhaseOk(log: seq<(nat, Bytes)>, i: nat, c: Client) {
    if !Busy(c.phase) then c.pos == PosNow(c.turns)
    else
      && c.draft.line == c.buffer && Follows(c.turns, c.draft) && c.draft.at <= |log|
      && (c.phase.Sending? || c.phase.Releasing? ||
          (c.draft.reply == [] && !c.draft.cut && (c.phase.Seeking? || c.draft.after == c.draft.pos)))
      && match c.phase
         case Writing(written) =>
           && DispatchOf(c.buffer).Text? && c.pos == c.draft.pos == c.draft.before && !c.draft.refused
           && (if c.draft.stored then written == |c.buffer| && c.draft.at < |log| && log[c.draft.at] == (i, c.buffer)
               else written == 0 && c.draft.at == |log|)
         case Seeking(cmd, offset) =>
           && DispatchOf(c.buffer) == Seek(cmd, offset) && !c.draft.stored
           && c.pos == c.draft.before && c.draft.at == |log|
         case Sending(saved, pieces) =>
           && FirstOk(log, i, c.draft) && saved == c.draft.pos == c.draft.after && c.draft.until == |log|
           && !c.draft.cut
           && Replaying(Window(log), c.draft.pos, [], c.pos, c.draft.reply, pieces)
         case Releasing => TurnOk(log, i, c.draft) && c.pos == c.draft.after
         case _ => FirstOk(log, i, c.draft) && c.pos == c.draft.pos
  }

  predicate ClientOk(log: seq<(nat, Bytes)>, i: nat, c: Client) {
    && SeenOk(c)
    && TurnsOk(log, i, c.turns)
    && StoredOk(log, i, c)
    && SentOk(c)
    && PhaseOk(log, i, c)
  }

  /** Between driver calls the device is exactly the last ten commands of the
      log with nothing pending, the lock admits one client, and every client is
      served as its record says. */
  predicate ServerOk(s: Server) {
    && s.dev == Log(Window(s.log), [])
    && AllLines(Commands(s.log))
    && (forall k :: 0 <= k < |s.log| ==> s.log[k].0 < |s.clients|)
    && (forall j :: 0 <= j < |s.clients| ==> (Locked(s.clients[j].phase) <==> s.lock == Some(j)))
    && (forall j :: 0 <= j < |s.clients| ==> ClientOk(s.log, j, s.clients[j]))
  }

  // ---------------------------------------------------------------- the log grows

  lemma CommandsSnoc(log: seq<(nat, Bytes)>, e: (nat, Bytes))
    ensures Commands(log + [e]) == Commands(log) + [e.1]
    ensures forall j :: Mine(log + [e], j) == Mine(log, j) + if e.0 == j then [e.1] else []
  {
    assert (log + [e])[..|log|] == log;
  }

  lemma TurnOkGrows(log: seq<(nat, Bytes)>, e: (nat, Bytes), i: nat, t: TurnRecord)
    ensures FirstOk(log, i, t) ==> FirstOk(log + [e], i, t)
    ensures TurnOk(log, i, t) ==> TurnOk(log + [e], i, t)
  {
    hide DispatchOf, PosAfter, Window, Drop, Flatten;
    assert t.at <= |log| ==> (log + [e])[..t.at] == log[..t.at];
    assert t.until <= |log| ==> (log + [e])[..t.until] == log[..t.until];
  }

  lemma TurnsOkGrow(log: seq<(nat, Bytes)>, e: (nat, Bytes), i: nat, turns: seq<TurnRecord>)
    requires TurnsOk(log, i, turns)
    ensures TurnsOk(log + [e], i, turns)
  {
    forall k | 0 <= k < |turns|
      ensures TurnOk(log + [e], i, turns[k])
    {
      TurnOkGrows(log, e, i, turns[k]);
    }
  }

  /** A commit by another client does not disturb a client without the lock. */
  lemma OthersOk(log: seq<(nat, Bytes)>, e: (nat, Bytes), j: nat, c: Client)
    requires ClientOk(log, j, c) && e.0 != j && !Locked(c.phase)
    ensures ClientOk(log + [e], j, c)
  {
    CommandsSnoc(log, e);
    TurnsOkGrow(log, e, j, c.turns);
    TurnOkGrows(log, e, j, c.draft);
    hide TurnsOk, FirstOk, TurnOk, Mine, SeenOk, SentOk, DispatchOf, StoredLines;
    assert Mine(log, j) + [] == Mine(log, j);
  }

  /** When a step leaves client `i` as `c`, in order, and the device and the log
      agreeing, everything is in order. */
  lemma StepSettles(s: Server, i: nat, c: Client, dev: Log, lock: Option<nat>, log: seq<(nat, Bytes)>)
    requires ServerOk(s) && i < |s.clients|
    requires log == s.log || (|log| == |s.log| + 1 && log == s.log + [log[|s.log|]]
                              && log[|s.log|].0 == i && s.lock == Some(i))
    requires dev == Log(Window(log), []) && AllLines(Commands(log))
    requires lock == s.lock || (lock in {None, Some(i)} && s.lock in {None, Some(i)})
    requires Locked(c.phase) <==> lock == Some(i)
    requires ClientOk(log, i, c)
    ensures ServerOk(Server(dev, lock, s.clients[i := c], log))
  {
    hide ClientOk, Window, AllLines, Commands;
    forall j | 0 <= j < |s.clients| && j != i
      ensures ClientOk(log, j, s.clients[j])
    {
      if log != s.log {
        OthersOk(s.log, log[|s.log|], j, s.clients[j]);
      }
    }
  }

  // ---------------------------------------------------------------- steps

  lemma ReceiveSeen(c: Client)
    requires SeenOk(c) && c.phase.Receiving? && c.unread != []
    ensures SeenOk(Receive(c))
  {
    var ch := c.unread[0];
    AppendByte(c.seen, ch);
    SplitExact(c.seen);
    hide Lines, Tail, Flatten, TurnLines, AllLines;
    assert (c.buffer + [ch])[..|c.buffer|] == c.buffer;
  }

  lemma ReceiveOk(log: seq<(nat, Bytes)>, i: nat, c: Client)
    requires ClientOk(log, i, c) && c.phase.Receiving? && c.unread != []
    ensures ClientOk(log, i, Receive(c))
  {
    ReceiveSeen(c);
    hide SeenOk, TurnsOk, Mine, StoredLines, Replies, Flatten;
  }

  lemma BeginOk(log: seq<(nat, Bytes)>, i: nat, c: Client, phase: Phase)
    requires ClientOk(log, i, c) && c.phase.Dispatching?
    requires match DispatchOf(c.buffer)
             case Text => phase == Writing(0)
             case Seek(cmd, offset) => phase == Seeking(cmd, offset)
             case Malformed => phase == Answering
    ensures ClientOk(log, i, Begin(c, |log|, phase))
  {
  }

  lemma SeekOk(dev: Log, log: seq<(nat, Bytes)>, i: nat, c: Client, fails: bool)
    requires ClientOk(log, i, c) && c.phase.Seeking? && dev.lines == Window(log)
    ensures ClientOk(log, i, SeekOnce(dev, c, c.phase.cmd, c.phase.offset, fails))
  {
    hide Lines, Tail, TurnsOk, Mine, StoredLines, Replies, Flatten, TurnLines, DispatchOf, Window, SeekTo;
    assert log[..c.draft.at] == log;
  }

  lemma WrittenOk(log: seq<(nat, Bytes)>, i: nat, c: Client)
    requires ClientOk(log, i, c) && c.phase.Writing? && c.phase.written >= |c.buffer|
    ensures ClientOk(log, i, c.(phase := Unlocking))
  {
    hide Lines, Tail, TurnsOk, Mine, StoredLines, Replies, Flatten, TurnLines, DispatchOf, Window;
  }

  lemma UnlockOk(log: seq<(nat, Bytes)>, i: nat, c: Client)
    requires ClientOk(log, i, c) && c.phase.Unlocking?
    ensures ClientOk(log, i, c.(phase := Answering))
  {
    hide Lines, Tail, TurnsOk, Mine, StoredLines, Replies, Flatten, TurnLines, FirstOk;
  }

  lemma AnswerOk(log: seq<(nat, Bytes)>, i: nat, c: Client)
    requires ClientOk(log, i, c) && c.phase.Answering?
    ensures ClientOk(log, i, c.(phase := Sending(c.pos, 0), draft := c.draft.(until := |log|)))
  {
    hide Lines, Tail, TurnsOk, Mine, StoredLines, Replies, Flatten, TurnLines, Window, DispatchOf, PosAfter, ReadLoop;
    assert Flatten(Replies(c.turns)) + [] == c.sent;
  }

  lemma WindowLines(log: seq<(nat, Bytes)>)
    requires AllLines(Commands(log))
    ensures AllLines(Window(log))
  {
  }

  lemma SendMore(log: seq<(nat, Bytes)>, i: nat, c: Client, d: Client)
    requires ClientOk(log, i, c) && c.phase.Sending? && AllLines(Window(log))
    requires ReadChunk(Window(log), c.pos) != []
    requires d == SendOnce(Log(Window(log), []), c, c.phase.saved, c.phase.pieces, Relayed)
    ensures PhaseOk(log, i, d) && SentOk(d)
  {
    hide SeenOk, TurnsOk, StoredOk, Replies, Window, AllLines, Replaying, ReadChunk, Flatten, DispatchOf, PosAfter;
    ReplayStep(Window(log), c.draft.pos, [], c.pos, c.draft.reply, c.phase.pieces, d.pos, d.draft.reply);
    Assoc(Flatten(Replies(c.turns)), c.draft.reply, ReadChunk(Window(log), c.pos));
  }

  lemma SendEnds(log: seq<(nat, Bytes)>, i: nat, c: Client, relay: Relay, d: Client)
    requires ClientOk(log, i, c) && c.phase.Sending? && AllLines(Window(log))
    requires ReadChunk(Window(log), c.pos) == []
    requires d == SendOnce(Log(Window(log), []), c, c.phase.saved, c.phase.pieces, relay)
    ensures PhaseOk(log, i, d) && SentOk(d)
  {
    hide SeenOk, TurnsOk, StoredOk, Replies, Window, AllLines, Replaying, ReadChunk, Flatten, DispatchOf;
    hide PosAfter, Drop;
    ReplayEnds(Window(log), c.draft.pos, [], c.pos, c.draft.reply, c.phase.pieces);
    assert log[..c.draft.until] == log;
    var reply := Drop(Flatten(Window(log)), c.draft.pos);
    assert [] + reply == reply;
    assert TurnOk(log, i, d.draft);
  }

  /** What was sent before an error is a beginning of the reply. */
  lemma CutReply(lines: seq<Bytes>, start: nat, pos: nat, now: Bytes, pieces: nat, part: Bytes, newPos: nat)
    requires AllLines(lines) && Replaying(lines, start, [], pos, now, pieces)
    requires part <= ReadChunk(lines, pos) && |part| <= newPos - pos <= |ReadChunk(lines, pos)|
    ensures ReadBack(lines, start, now + part, newPos)
  {
    var chunk := ReadChunk(lines, pos);
    assert now + part <= now + chunk;
    ReplayFailsWithin(lines, start, [], pos, now, pieces, newPos, now + part);
    hide ReadChunk, Replaying, Flatten, Drop;
    var full := Drop(Flatten(lines), start);
    assert [] + full == full;
  }

  lemma SendFailing(log: seq<(nat, Bytes)>, i: nat, c: Client, d: Client, part: Bytes)
    requires ClientOk(log, i, c) && c.phase.Sending? && AllLines(Window(log))
    requires part <= ReadChunk(Window(log), c.pos)
    requires |part| <= d.pos - c.pos <= |ReadChunk(Window(log), c.pos)|
    requires d == c.(phase := Releasing, pos := d.pos, sent := c.sent + part,
                     draft := c.draft.(reply := c.draft.reply + part, cut := true, after := d.pos))
    ensures PhaseOk(log, i, d) && SentOk(d)
  {
    hide SeenOk, TurnsOk, StoredOk, Replies, Window, AllLines, Replaying, ReadChunk, Flatten, DispatchOf, PosAfter;
    hide Drop, ReadBack;
    CutReply(Window(log), c.draft.pos, c.pos, c.draft.reply, c.phase.pieces, part, d.pos);
    Assoc(Flatten(Replies(c.turns)), c.draft.reply, part);
    assert log[..c.draft.until] == log;
    assert TurnOk(log, i, d.draft);
  }

  lemma SendOk(dev: Log, log: seq<(nat, Bytes)>, i: nat, c: Client, relay: Relay, d: Client)
    requires ClientOk(log, i, c) && c.phase.Sending? && AllLines(Commands(log))
    requires dev == Log(Window(log), []) && d == SendOnce(dev, c, c.phase.saved, c.phase.pieces, relay)
    ensures ClientOk(log, i, d) && Locked(d.phase)
  {
    hide Lines, Tail, TurnLines, TurnsOk, Mine, StoredLines, ReadChunk, Flatten, Replies, AllLines, Window;
    hide PhaseOk, SentOk, FixedSizeLlseek, Commands;
    WindowLines(log);
    var chunk := ReadChunk(Window(log), c.pos);
    if chunk == [] {
      SendEnds(log, i, c, relay, d);
    } else {
      match relay {
        case Relayed => SendMore(log, i, c, d);
        case ReadFails =>
          assert c.sent + [] == c.sent && c.draft.reply + [] == c.draft.reply;
          SendFailing(log, i, c, d, []);
        case SendFails(taken) =>
          SendFailing(log, i, c, d, chunk[..if taken < |chunk| then taken else |chunk|]);
      }
    }
  }

  lemma TurnsSnoc(turns: seq<TurnRecord>, t: TurnRecord)
    ensures TurnLines(turns + [t]) == TurnLines(turns) + [t.line]
    ensures StoredLines(turns + [t]) == StoredLines(turns) + if t.stored then [t.line] else []
    ensures Replies(turns + [t]) == Replies(turns) + [t.reply]
    ensures PosNow(turns + [t]) == t.after
  {
    assert (turns + [t])[..|turns|] == turns;
  }

  lemma ReleaseTurns(log: seq<(nat, Bytes)>, i: nat, turns: seq<TurnRecord>, t: TurnRecord)
    requires TurnsOk(log, i, turns) && TurnOk(log, i, t) && Follows(turns, t)
    ensures TurnsOk(log, i, turns + [t])
  {
    var more := turns + [t];
    assert more[..|turns|] == turns;
    hide TurnOk;
    forall k | 0 <= k < |more|
      ensures TurnOk(log, i, more[k]) && Follows(more[..k], more[k])
    {
      if k < |turns| {
        assert more[..k] == turns[..k];
      }
    }
  }

  lemma ReleaseStored(log: seq<(nat, Bytes)>, i: nat, c: Client, d: Client)
    requires StoredOk(log, i, c) && c.phase.Releasing? && c.draft.line == c.buffer
    requires d.turns == c.turns + [c.draft] && d.phase.Receiving?
    ensures StoredOk(log, i, d)
  {
    TurnsSnoc(c.turns, c.draft);
    hide Mine, StoredLines;
    assert StoredLines(d.turns) + [] == StoredLines(d.turns);
  }

  lemma ReleaseSent(c: Client, d: Client)
    requires SentOk(c) && c.phase.Releasing?
    requires d.turns == c.turns + [c.draft] && d.phase.Receiving? && d.sent == c.sent
    ensures SentOk(d)
  {
    TurnsSnoc(c.turns, c.draft);
    FlattenSnoc(Replies(c.turns), c.draft.reply);
    hide Flatten, Replies;
    assert Flatten(Replies(d.turns)) + [] == Flatten(Replies(d.turns));
  }

  lemma ReleaseOk(log: seq<(nat, Bytes)>, i: nat, c: Client)
    requires ClientOk(log, i, c) && c.phase.Releasing?
    ensures ClientOk(log, i, Finish(c))
  {
    var d := Finish(c);
    hide TurnsOk, TurnOk, StoredOk, SentOk, Lines, Tail, TurnLines, PosNow;
    ReleaseTurns(log, i, c.turns, c.draft);
    ReleaseStored(log, i, c, d);
    ReleaseSent(c, d);
    TurnsSnoc(c.turns, c.draft);
  }

  /** What one write call does to the device and to the log with a whole line. */
  lemma LineWritten(log: seq<(nat, Bytes)>, i: nat, line: Bytes, faults: WriteFaults)
    requires IsLine(line)
    ensures line[0..] == line && Accepted(line) == |line| && EndsCommand(line, |line|)
    ensures FaultyWrite(Log(Window(log), []), line, faults)
         == Log(Window(if Takes(faults) then log + [(i, line)] else log), [])
    ensures if Takes(faults) && !faults.reset then WriteResult(line, faults) == |line|
            else WriteResult(line, faults) < 0
  {
    LineIsAcceptedWhole(line);
    CommandsSnoc(log, (i, line));
    LastTenSnoc(Commands(log), line);
    assert [] + line == line;
  }

  /** A write section takes its line whole or not at all. */
  lemma WriteOnceExact(s: Server, i: nat, c: Client, faults: WriteFaults)
    requires i < |s.clients| && s.dev == Log(Window(s.log), []) && IsLine(c.buffer)
    ensures var t := WriteOnce(s, i, c, 0, faults);
            && t.log == (if Takes(faults) then s.log + [(i, c.buffer)] else s.log)
            && t.dev == Log(Window(t.log), [])
            && t.clients == s.clients[i :=
                 c.(phase := if Takes(faults) && !faults.reset then Writing(|c.buffer|) else Unlocking,
                    draft := c.draft.(stored := c.draft.stored || Takes(faults)))]
  {
    hide Accepted, Commands, LastTen, Window, FaultyWrite, WriteResult, EndsCommand, Takes;
    LineWritten(s.log, i, c.buffer, faults);
    assert c.buffer[..|c.buffer|] == c.buffer && [] + c.buffer == c.buffer && s.log + [] == s.log;
  }

  lemma StoringPhase(log: seq<(nat, Bytes)>, i: nat, c: Client, d: Client)
    requires PhaseOk(log, i, c) && c.phase == Writing(0) && c.buffer != []
    requires d == c.(phase := d.phase, draft := c.draft.(stored := true))
    requires d.phase == Writing(|c.buffer|) || d.phase == Unlocking
    ensures PhaseOk(log + [(i, c.buffer)], i, d) && !c.draft.stored
  {
    var more := log + [(i, c.buffer)];
    assert more[..c.draft.at] == log && more[c.draft.at] == (i, c.buffer);
    hide DispatchOf, Window, PosNow, Follows;
  }

  lemma StoringOk(log: seq<(nat, Bytes)>, i: nat, c: Client, phase: Phase)
    requires ClientOk(log, i, c) && c.phase == Writing(0) && c.buffer != []
    requires phase == Writing(|c.buffer|) || phase == Unlocking
    ensures ClientOk(log + [(i, c.buffer)], i, c.(phase := phase, draft := c.draft.(stored := true)))
  {
    hide PhaseOk, TurnsOk, Lines, Tail, Mine, StoredLines, TurnLines, Replies, Flatten;
    var d := c.(phase := phase, draft := c.draft.(stored := true));
    CommandsSnoc(log, (i, c.buffer));
    TurnsOkGrow(log, (i, c.buffer), i, c.turns);
    StoringPhase(log, i, c, d);
    assert StoredLines(c.turns) + [] == StoredLines(c.turns);
  }

  lemma RefusedOk(log: seq<(nat, Bytes)>, i: nat, c: Client)
    requires ClientOk(log, i, c) && c.phase == Writing(0) && c.buffer != []
    ensures ClientOk(log, i, c.(phase := Unlocking))
  {
    hide TurnsOk, Lines, Tail, Mine, StoredLines, TurnLines, Replies, Flatten, DispatchOf, Window;
  }

  lemma AllLinesSnoc(ls: seq<Bytes>, l: Bytes)
    requires AllLines(ls) && IsLine(l)
    ensures AllLines(ls + [l])
  {
  }

  lemma WriteOk(s: Server, i: nat, faults: WriteFaults)
    requires ServerOk(s) && i < |s.clients|
    requires s.clients[i].phase.Writing? && s.clients[i].phase.written < |s.clients[i].buffer|
    ensures ServerOk(WriteOnce(s, i, s.clients[i], s.clients[i].phase.written, faults))
  {
    var c := s.clients[i];
    assert ClientOk(s.log, i, c) && s.lock == Some(i);
    assert s.dev == Log(Window(s.log), []) && AllLines(Commands(s.log));
    assert IsLine(c.buffer) && c.phase.written == 0 && !c.draft.stored && c.buffer != [];
    WriteOnceExact(s, i, c, faults);
    var t := WriteOnce(s, i, c, 0, faults);
    hide ServerOk, ClientOk, WriteOnce, Window, Commands, Mine, AllLines, IsLine;
    if Takes(faults) {
      StoringOk(s.log, i, c, t.clients[i].phase);
      CommandsSnoc(s.log, (i, c.buffer));
      AllLinesSnoc(Commands(s.log), c.buffer);
    } else {
      RefusedOk(s.log, i, c);
    }
    StepSettles(s, i, t.clients[i], t.dev, t.lock, t.log);
  }

  lemma ClientIsOk(s: Server, i: nat)
    requires ServerOk(s) && i < |s.clients|
    ensures s.dev == Log(Window(s.log), []) && AllLines(Commands(s.log))
    ensures ClientOk(s.log, i, s.clients[i])
    ensures Locked(s.clients[i].phase) <==> s.lock == Some(i)
  {
  }

  /** A step outside the two sections, or into one of them. */
  lemma UnlockedStepOk(s: Server, i: nat, env: Env)
    requires ServerOk(s) && i < |s.clients| && !Locked(s.clients[i].phase)
    ensures ServerOk(Step(s, i, env))
  {
    var c, t := s.clients[i], Step(s, i, env);
    hide ServerOk, ClientOk, Window, Commands, AllLines, DispatchOf;
    ClientIsOk(s, i);
    if t != s {
      match c.phase {
        case Receiving => ReceiveOk(s.log, i, c);
        case Dispatching => BeginOk(s.log, i, c, t.clients[i].phase);
        case Answering => AnswerOk(s.log, i, c);
      }
      StepSettles(s, i, t.clients[i], t.dev, t.lock, t.log);
    }
  }

  lemma SeekUnlocks(dev: Log, c: Client, fails: bool)
    ensures c.phase.Seeking? ==> SeekOnce(dev, c, c.phase.cmd, c.phase.offset, fails).phase.Unlocking?
  {
  }

  /** A step within the first section. */
  lemma FirstSectionStepOk(s: Server, i: nat, env: Env)
    requires ServerOk(s) && i < |s.clients|
    requires s.clients[i].phase.Writing? || s.clients[i].phase.Seeking? || s.clients[i].phase.Unlocking?
    ensures ServerOk(Step(s, i, env))
  {
    var c, t := s.clients[i], Step(s, i, env);
    hide ServerOk, ClientOk, Window, WriteOnce, SeekOnce, Commands, AllLines;
    SeekUnlocks(s.dev, c, env.seekFails);
    ClientIsOk(s, i);
    if c.phase.Seeking? {
      var d := SeekOnce(s.dev, c, c.phase.cmd, c.phase.offset, env.seekFails);
      SeekOk(s.dev, s.log, i, c, env.seekFails);
      StepSettles(s, i, d, t.dev, t.lock, t.log);
    } else if c.phase.Unlocking? {
      UnlockOk(s.log, i, c);
      StepSettles(s, i, c.(phase := Answering), t.dev, t.lock, t.log);
    } else if c.phase.written < |c.buffer| {
      WriteOk(s, i, env.write);
    } else {
      WrittenOk(s.log, i, c);
      StepSettles(s, i, c.(phase := Unlocking), t.dev, t.lock, t.log);
    }
  }

  lemma ReadbackShape(s: Server, i: nat, env: Env)
    requires i < |s.clients|
    ensures var c := s.clients[i];
            && (c.phase.Sending? ==>
                  Step(s, i, env) == Server(s.dev, s.lock,
                    s.clients[i := SendOnce(s.dev, c, c.phase.saved, c.phase.pieces, env.relay)], s.log))
            && (c.phase.Releasing? ==>
                  Step(s, i, env) == Server(s.dev, None, s.clients[i := Finish(c)], s.log))
  {
    hide SendOnce, Finish;
  }

  /** A step within the readback section. */
  lemma ReadbackStepOk(s: Server, i: nat, env: Env)
    requires ServerOk(s) && i < |s.clients|
    requires s.clients[i].phase.Sending? || s.clients[i].phase.Releasing?
    ensures ServerOk(Step(s, i, env))
  {
    hide ServerOk, ClientOk, Window, SendOnce, Finish, Commands, AllLines, Step;
    var c := s.clients[i];
    ReadbackShape(s, i, env);
    ClientIsOk(s, i);
    if c.phase.Sending? {
      var d := SendOnce(s.dev, c, c.phase.saved, c.phase.pieces, env.relay);
      SendOk(s.dev, s.log, i, c, env.relay, d);
      StepSettles(s, i, d, s.dev, s.lock, s.log);
    } else {
      ReleaseOk(s.log, i, c);
      StepSettles(s, i, Finish(c), s.dev, None, s.log);
    }
  }

  /** Every step of every client keeps everything in order. */
  lemma StepOk(s: Server, i: nat, env: Env)
    requires ServerOk(s) && i < |s.clients|
    ensures ServerOk(Step(s, i, env))
  {
    hide ServerOk, Step;
    var p := s.clients[i].phase;
    if !Locked(p) {
      UnlockedStepOk(s, i, env);
    } else if p.Sending? || p.Releasing? {
      ReadbackStepOk(s, i, env);
    } else {
      FirstSectionStepOk(s, i, env);
    }
  }

  lemma StartOk(streams: seq<Bytes>)
    ensures ServerOk(Start(streams))
  {
    assert Flatten([]) == [];
  }

  lemma {:induction false} RunOk(s: Server, schedule: Schedule)
    requires ServerOk(s) && Fits(schedule, |s.clients|)
    ensures ServerOk(Run(s, schedule))
  {
    hide ServerOk, Step;
    if schedule != [] {
      RunOk(s, schedule[..|schedule|-1]);
      var (i, env) := schedule[|schedule|-1];
      StepOk(Run(s, schedule[..|schedule|-1]), i, env);
    }
  }

  // ---------------------------------------------------------------- over whole runs

  lemma {:induction false} RunKeepsStreams(streams: seq<Bytes>, schedule: Schedule, j: nat)
    requires Fits(schedule, |streams|) && j < |streams|
    ensures var c := Run(Start(streams), schedule).clients[j]; c.seen + c.unread == streams[j]
  {
    if schedule == [] {
      assert [] + streams[j] == streams[j];
    } else {
      var init := schedule[..|schedule|-1];
      var (i, env) := schedule[|schedule|-1];
      RunKeepsStreams(streams, init, j);
      StreamStep(Run(Start(streams), init), i, env, j);
    }
  }

  lemma StreamStep(s: Server, i: nat, env: Env, j: nat)
    requires i < |s.clients| && j < |s.clients|
    ensures var c, d := s.clients[j], Step(s, i, env).clients[j];
            d.seen + d.unread == c.seen + c.unread
  {
    hide DispatchOf, SeekTo, ReadChunk, FixedSizeLlseek, FaultyWrite, WriteResult, Contents, Accepted, EndsCommand;
    var c := s.clients[j];
    if i == j && c.phase.Receiving? && c.unread != [] {
      Assoc(c.seen, [c.unread[0]], c.unread[1..]);
      assert c.unread == [c.unread[0]] + c.unread[1..];
    }
  }

  /** For any number of clients, any streams, any failures and any
      interleaving: the device is always the last ten commands of the log with
      nothing pending, each entry of the log is one complete command by one of
      the clients, and one client at most is in a section. */
  lemma DeviceIsWindow(streams: seq<Bytes>, schedule: Schedule)
    requires Fits(schedule, |streams|)
    ensures var s := Run(Start(streams), schedule);
            && s.dev == Log(LastTen(Commands(s.log)), [])
            && AllLines(Commands(s.log))
            && (forall k :: 0 <= k < |s.log| ==> s.log[k].0 < |streams|)
            && (forall i, j | 0 <= i < |streams| && 0 <= j < |streams| ::
                  Locked(s.clients[i].phase) && Locked(s.clients[j].phase) ==> i == j)
  {
    StartOk(streams);
    RunOk(Start(streams), schedule);
    hide Run, ClientOk, Commands, AllLines;
  }

  /** The line client `c` is busy with: received whole, its turn unfinished. */
  function Current(c: Client): seq<Bytes> {
    if c.phase.Receiving? then [] else [c.buffer]
  }

  /** The same line, if it has been stored. */
  function CurrentStored(c: Client): seq<Bytes> {
    if Busy(c.phase) && c.draft.stored then [c.buffer] else []
  }

  /** The part of the reply to it that has been sent. */
  function CurrentReply(c: Client): Bytes {
    if c.phase.Sending? || c.phase.Releasing? then c.draft.reply else []
  }

  /** At every point of the same runs: the lines client `i` has sent are those of
      its turns, and the current one; its entries in the log are those of them
      that were stored, in its own order; what it was sent are the replies in
      order, and what has been sent of the current one; and each turn started at
      the position the one before left, no earlier in the log than that one's
      readback, did what its line asks for, and was answered with the log as it
      stood at its own readback, from the position asked for. */
  lemma ClientIsServed(streams: seq<Bytes>, schedule: Schedule, i: nat)
    requires Fits(schedule, |streams|) && i < |streams|
    ensures var s := Run(Start(streams), schedule);
            var c := s.clients[i];
            && c.seen + c.unread == streams[i]
            && TurnsOk(s.log, i, c.turns)
            && Lines(c.seen) == TurnLines(c.turns) + Current(c)
            && Mine(s.log, i) == StoredLines(c.turns) + CurrentStored(c)
            && c.sent == Flatten(Replies(c.turns)) + CurrentReply(c)
  {
    StartOk(streams);
    RunOk(Start(streams), schedule);
    RunKeepsStreams(streams, schedule, i);
    var s := Run(Start(streams), schedule);
    var c := s.clients[i];
    ClientIsOk(s, i);
    hide Run, ServerOk, TurnsOk, Lines, Tail, Mine, StoredLines, Replies, TurnLines, Flatten, PhaseOk;
    assert TurnLines(c.turns) + [] == TurnLines(c.turns);
  }

  // ---------------------------------------------------------------- nothing is lost

  predicate Faultless(schedule: Schedule) {
    forall k :: 0 <= k < |schedule| ==> schedule[k].1 == NO_FAILURE
  }

  /** A text line was stored, a seek was not refused, and the reply is whole. */
  predicate Kept(t: TurnRecord) {
    (DispatchOf(t.line).Text? ==> t.stored) && !t.refused && !t.cut
  }

  /** Once past its write loop, a text line has been stored. */
  predicate ClientKept(c: Client) {
    && (forall k :: 0 <= k < |c.turns| ==> Kept(c.turns[k]))
    && (Busy(c.phase) ==> !c.draft.refused && !c.draft.cut)
    && (c.phase.Unlocking? || c.phase.Answering? || c.phase.Sending? || c.phase.Releasing? ==>
          DispatchOf(c.draft.line).Text? ==> c.draft.stored)
  }

  lemma KeptWrite(s: Server, i: nat)
    requires ServerOk(s) && i < |s.clients| && s.clients[i].phase.Writing?
    ensures var c, d := s.clients[i], Step(s, i, NO_FAILURE).clients[i];
            && d.turns == c.turns
            && (d.phase.Writing? || (DispatchOf(d.draft.line).Text? ==> d.draft.stored))
            && d.draft.refused == c.draft.refused && d.draft.cut == c.draft.cut
            && !d.phase.Answering? && !d.phase.Sending? && !d.phase.Releasing?
  {
    var c := s.clients[i];
    assert ClientOk(s.log, i, c) && s.dev == Log(Window(s.log), []);
    assert IsLine(c.buffer);
    hide ServerOk, TurnsOk, SeenOk, StoredOk, SentOk, FirstOk, TurnOk, DispatchOf, WriteOnce;
    if c.phase.written < |c.buffer| {
      WriteOnceExact(s, i, c, NO_FAULTS);
    }
  }

  lemma KeptRest(s: Server, i: nat)
    requires i < |s.clients| && ClientKept(s.clients[i]) && !s.clients[i].phase.Writing?
    requires s.clients[i].phase.Seeking? ==> !DispatchOf(s.clients[i].draft.line).Text?
    ensures ClientKept(Step(s, i, NO_FAILURE).clients[i])
  {
    hide SeekTo, ReadChunk, FixedSizeLlseek, Contents, ScanUnsigned, HasPrefix;
  }

  lemma KeptStep(s: Server, i: nat)
    requires ServerOk(s) && i < |s.clients| && ClientKept(s.clients[i])
    ensures ClientKept(Step(s, i, NO_FAILURE).clients[i])
  {
    var c := s.clients[i];
    if c.phase.Writing? {
      KeptWrite(s, i);
    } else {
      assert ClientOk(s.log, i, c);
      assert PhaseOk(s.log, i, c);
      hide ServerOk, ClientOk, ClientKept, Step, DispatchOf;
      KeptRest(s, i);
    }
  }

  lemma {:induction false} RunKeeps(streams: seq<Bytes>, schedule: Schedule, j: nat)
    requires Fits(schedule, |streams|) && Faultless(schedule) && j < |streams|
    ensures ClientKept(Run(Start(streams), schedule).clients[j])
  {
    if schedule != [] {
      var init := schedule[..|schedule|-1];
      var (i, env) := schedule[|schedule|-1];
      assert env == NO_FAILURE by {
        assert schedule[|schedule|-1].1 == NO_FAILURE;
      }
      RunKeeps(streams, init, j);
      StartOk(streams);
      RunOk(Start(streams), init);
      var s := Run(Start(streams), init);
      hide ServerOk, ClientKept;
      if i == j {
        KeptStep(s, i);
      } else {
        StepKeepsOthers(s, i, env, j);
      }
    }
  }

  lemma StepKeepsOthers(s: Server, i: nat, env: Env, j: nat)
    requires i < |s.clients| && j < |s.clients| && i != j
    ensures Step(s, i, env).clients[j] == s.clients[j]
  {
    hide DispatchOf, SeekTo, ReadChunk, FixedSizeLlseek, FaultyWrite, WriteResult, Contents, Accepted, EndsCommand;
  }

  lemma {:induction false} KeptTexts(log: seq<(nat, Bytes)>, i: nat, turns: seq<TurnRecord>)
    requires forall k :: 0 <= k < |turns| ==> Kept(turns[k]) && FirstOk(log, i, turns[k])
    ensures StoredLines(turns) == TextLines(TurnLines(turns))
  {
    if turns != [] {
      var init, t := turns[..|turns|-1], turns[|turns|-1];
      KeptTexts(log, i, init);
      assert FirstOk(log, i, t);
      assert TurnLines(turns)[..|TurnLines(turns)|-1] == TurnLines(init);
    }
  }

  /** The current line, if it is a text line whose write is still to come. */
  function StillToStore(c: Client): seq<Bytes> {
    if !c.phase.Receiving? && DispatchOf(c.buffer).Text? && CurrentStored(c) == [] then [c.buffer] else []
  }

  /** When nothing fails the log is an order-preserving merge of what the
      clients write: at every point, a client's part of the log is exactly the
      text lines among all it has sent so far, in the order sent, but for a
      last one that has not got to the end of its write section yet. */
  lemma LogIsMerge(streams: seq<Bytes>, schedule: Schedule, i: nat)
    requires Fits(schedule, |streams|) && Faultless(schedule) && i < |streams|
    ensures var s := Run(Start(streams), schedule);
            var c := s.clients[i];
            && Mine(s.log, i) + StillToStore(c) == TextLines(Lines(c.seen))
            && (StillToStore(c) != [] ==> c.phase.Dispatching? || c.phase.Writing?)
  {
    StartOk(streams);
    RunOk(Start(streams), schedule);
    RunKeeps(streams, schedule, i);
    var s := Run(Start(streams), schedule);
    hide Run, ServerOk, ClientOk, ClientKept, Mine, Lines, StillToStore, TextLines;
    ClientIsOk(s, i);
    MergePart(s.log, i, s.clients[i]);
  }

  lemma MergePart(log: seq<(nat, Bytes)>, i: nat, c: Client)
    requires ClientOk(log, i, c) && ClientKept(c)
    ensures Mine(log, i) + StillToStore(c) == TextLines(Lines(c.seen))
    ensures StillToStore(c) != [] ==> c.phase.Dispatching? || c.phase.Writing?
  {
    hide FirstOk, Mine, Lines, Tail, TextLines, StoredLines, TurnLines, DispatchOf, SentOk, IsLine;
    KeptTexts(log, i, c.turns);
    CurrentText(TurnLines(c.turns), c);
    CurrentIsText(log, i, c);
    var texts := StoredLines(c.turns);
    assert texts + [] == texts && TurnLines(c.turns) + [] == TurnLines(c.turns);
  }

  /** Only text lines are stored, and a text line past its write is. */
  lemma CurrentIsText(log: seq<(nat, Bytes)>, i: nat, c: Client)
    requires PhaseOk(log, i, c) && ClientKept(c)
    ensures CurrentStored(c) + StillToStore(c) ==
            if !c.phase.Receiving? && DispatchOf(c.buffer).Text? then [c.buffer] else []
    ensures StillToStore(c) != [] ==> c.phase.Dispatching? || c.phase.Writing?
  {
    hide DispatchOf, PosAfter, Window, Flatten, Replaying, ReadBack, Drop, PosNow;
  }

  lemma CurrentText(lines: seq<Bytes>, c: Client)
    ensures TextLines(lines + Current(c))
         == TextLines(lines) + if !c.phase.Receiving? && DispatchOf(c.buffer).Text? then [c.buffer] else []
  {
    if c.phase.Receiving? {
      assert lines + [] == lines;
    } else {
      assert (lines + [c.buffer])[..|lines|] == lines;
    }
    assert TextLines(lines) + [] == TextLines(lines);
  }

  /** When nothing fails, every finished turn has the whole reply and leaves the
      position its line asks for. */
  lemma RepliesAreWhole(streams: seq<Bytes>, schedule: Schedule, i: nat, n: nat)
    requires Fits(schedule, |streams|) && Faultless(schedule) && i < |streams|
    requires n < |Run(Start(streams), schedule).clients[i].turns|
    ensures var s := Run(Start(streams), schedule);
            var t := s.clients[i].turns[n];
            && t.at <= t.until <= |s.log|
            && t.pos == PosAfter(Window(s.log[..t.at]), t.before, t.line)
            && t.reply == Drop(Flatten(Window(s.log[..t.until])), t.pos)
            && t.after == t.pos && (DispatchOf(t.line).Text? ==> t.stored)
  {
    ClientIsServed(streams, schedule, i);
    RunKeeps(streams, schedule, i);
    var c := Run(Start(streams), schedule).clients[i];
    hide Run, DispatchOf, PosAfter, Window, Flatten, Drop;
    assert Kept(c.turns[n]) && TurnOk(Run(Start(streams), schedule).log, i, c.turns[n]);
  }

  // ---------------------------------------------------------------- visibility

  lemma {:induction false} CommandsAt(log: seq<(nat, Bytes)>, k: nat)
    requires k < |log|
    ensures |Commands(log)| == |log| && Commands(log)[k] == log[k].1
  {
    if k < |log| - 1 {
      CommandsAt(log[..|log|-1], k);
    } else if k > 0 {
      CommandsAt(log[..|log|-1], k - 1);
    }
  }

  /** A turn's line is command `k` of the window, and stands whole in the reply
      where the window has it, unless the position asked for is past it. */
  predicate VisibleAt(window: seq<Bytes>, k: nat, t: TurnRecord) {
    && k < |window| && window[k] == t.line
    && (t.pos <= Before(window, k) ==>
          var at := Before(window, k) - t.pos;
          at + |t.line| <= |t.reply| && t.reply[at..at + |t.line|] == t.line)
  }

  /** A stored line is in its own readback when at most nine other commands were
      committed in between. */
  lemma StoredLineIsVisible(log: seq<(nat, Bytes)>, i: nat, t: TurnRecord) returns (k: nat)
    requires TurnOk(log, i, t) && t.stored && !t.cut
    requires t.until - t.at - 1 <= CAPACITY - 1
    ensures VisibleAt(Window(log[..t.until]), k, t)
  {
    var past := log[..t.until];
    CommandsAt(past, t.at);
    var window := Window(past);
    k := t.at - (t.until - |window|);
    assert window[k] == Commands(past)[t.at] == t.line;
    hide Window, Commands, Flatten, Drop, VisibleAt;
    SliceIsVisible(window, k, t);
  }

  lemma DropIsSlice(b: Bytes, pos: nat)
    requires pos <= |b|
    ensures Drop(b, pos) == b[pos..]
  {
  }

  lemma SliceIsVisible(window: seq<Bytes>, k: nat, t: TurnRecord)
    requires k < |window| && window[k] == t.line
    requires t.reply == Drop(Flatten(window), t.pos)
    ensures VisibleAt(window, k, t)
  {
    hide Flatten, Before, Drop;
    LineOccupies(window, k);
    if t.pos <= Before(window, k) {
      DropIsSlice(Flatten(window), t.pos);
      SliceWithin(Flatten(window), t.pos, Before(window, k), Before(window, k + 1));
    }
  }

  /** So in every run, for every finished turn of every client. */
  lemma RunStoredLineIsVisible(streams: seq<Bytes>, schedule: Schedule, i: nat, n: nat) returns (k: nat)
    requires Fits(schedule, |streams|) && i < |streams|
    requires n < |Run(Start(streams), schedule).clients[i].turns|
    requires var t := Run(Start(streams), schedule).clients[i].turns[n];
             t.stored && !t.cut && t.until - t.at - 1 <= CAPACITY - 1
    ensures var s := Run(Start(streams), schedule);
            var t := s.clients[i].turns[n];
            t.until <= |s.log| && VisibleAt(Window(s.log[..t.until]), k, t)
  {
    ClientIsServed(streams, schedule, i);
    var s := Run(Start(streams), schedule);
    var t := s.clients[i].turns[n];
    assert TurnOk(s.log, i, t);
    hide Run, Start, VisibleAt, TurnsOk, Mine, StoredLines, TurnLines, Lines, Replies, Flatten;
    k := StoredLineIsVisible(s.log, i, t);
  }

  /** With ten or more other commits in between the line has left the window:
      what is read back is only later commands. */
  lemma EvictedLineIsGone(log: seq<(nat, Bytes)>, i: nat, t: TurnRecord, k: nat)
    requires TurnOk(log, i, t) && t.stored && t.until - t.at - 1 >= CAPACITY
    requires k < |Window(log[..t.until])|
    ensures exists m :: t.at < m < t.until && Window(log[..t.until])[k] == log[m].1
  {
    var past := log[..t.until];
    CommandsAt(past, t.at);
    var m := t.until - CAPACITY + k;
    CommandsAt(past, m);
    assert Window(past)[k] == log[m].1;
  }

  // ---------------------------------------------------------------- one client alone

  const NO_SESSION := Session([], 0, [])

  /** The session of a client that has the server to itself, after `turns`. */
  function SessionAfter(turns: seq<TurnRecord>): Session {
    Session(Flatten(StoredLines(turns)), PosNow(turns), Replies(turns))
  }

  function Trace(turns: seq<TurnRecord>): seq<Session> {
    seq(|turns| + 1, k requires 0 <= k <= |turns| => SessionAfter(turns[..k]))
  }

  /** The failures a turn's record speaks of. */
  function FaultsOf(t: TurnRecord): TurnFaults {
    var write := if DispatchOf(t.line).Text? && !t.stored then NO_FAULTS.(scratch := true) else NO_FAULTS;
    TurnFaults(write, t.refused, [])
  }

  function AllFaults(turns: seq<TurnRecord>): seq<TurnFaults> {
    seq(|turns|, k requires 0 <= k < |turns| => FaultsOf(turns[k]))
  }

  lemma {:induction false} MineIsAll(log: seq<(nat, Bytes)>)
    requires forall k :: 0 <= k < |log| ==> log[k].0 == 0
    ensures Mine(log, 0) == Commands(log) && |Commands(log)| == |log|
  {
    if log != [] {
      MineIsAll(log[..|log|-1]);
    }
  }

  lemma {:induction false} CommandsPrefix(log: seq<(nat, Bytes)>, m: nat)
    requires m <= |log|
    ensures |Commands(log)| == |log| && Commands(log)[..m] == Commands(log[..m])
  {
    if m < |log| {
      CommandsPrefix(log[..|log|-1], m);
      assert log[..|log|-1][..m] == log[..m];
    } else if m > 0 {
      CommandsPrefix(log[..m-1], m - 1);
      assert log[..m] == log;
    }
  }

  lemma TurnsSplit(turns: seq<TurnRecord>)
    requires turns != []
    ensures var init, t := turns[..|turns|-1], turns[|turns|-1];
            && turns == init + [t]
            && TurnLines(turns) == TurnLines(init) + [t.line]
            && StoredLines(turns) == StoredLines(init) + (if t.stored then [t.line] else [])
            && Replies(turns) == Replies(init) + [t.reply]
            && PosNow(turns) == t.after && UntilNow(turns) == t.until
  {
  }

  lemma LastTurn(log: seq<(nat, Bytes)>, i: nat, turns: seq<TurnRecord>)
    requires TurnsOk(log, i, turns) && turns != []
    ensures var init, t := turns[..|turns|-1], turns[|turns|-1];
            TurnsOk(log, i, init) && TurnOk(log, i, t) && Follows(init, t)
  {
    hide TurnOk, Follows;
    var init := turns[..|turns|-1];
    forall k | 0 <= k < |init|
      ensures TurnOk(log, i, init[k]) && Follows(init[..k], init[k])
    {
      assert init[..k] == turns[..k] && init[k] == turns[k];
    }
  }

  lemma {:induction false} UntilCounts(log: seq<(nat, Bytes)>, i: nat, turns: seq<TurnRecord>)
    requires TurnsOk(log, i, turns)
    ensures |StoredLines(turns)| <= UntilNow(turns)
  {
    hide TurnsOk, FirstOk, StoredLines, ReadBack, Drop, Flatten;
    if turns != [] {
      LastTurn(log, i, turns);
      TurnsSplit(turns);
      UntilCounts(log, i, turns[..|turns|-1]);
    } else {
      assert StoredLines([]) == [] by {
        NoStoredLines();
      }
    }
  }

  lemma NoStoredLines()
    ensures StoredLines([]) == []
  {
  }

  /** When the log has no other entries, turns follow one another in it without
      a gap. */
  lemma {:induction false} TurnsAreDense(log: seq<(nat, Bytes)>, i: nat, turns: seq<TurnRecord>, k: nat)
    requires TurnsOk(log, i, turns) && UntilNow(turns) <= |StoredLines(turns)| && k < |turns|
    ensures turns[k].at == |StoredLines(turns[..k])| && turns[k].until == |StoredLines(turns[..k+1])|
  {
    hide TurnsOk, FirstOk, StoredLines, ReadBack, Drop, Flatten;
    var init := turns[..|turns|-1];
    LastTurn(log, i, turns);
    TurnsSplit(turns);
    UntilCounts(log, i, init);
    if k < |init| {
      TurnsAreDense(log, i, init, k);
      assert init[..k] == turns[..k] && init[..k+1] == turns[..k+1];
    } else {
      assert turns[..k+1] == turns;
    }
  }

  lemma {:induction false} StoredPrefix(turns: seq<TurnRecord>, k: nat)
    requires k <= |turns|
    ensures |StoredLines(turns[..k])| <= |StoredLines(turns)|
    ensures StoredLines(turns)[..|StoredLines(turns[..k])|] == StoredLines(turns[..k])
  {
    hide StoredLines;
    if k < |turns| {
      TurnsSplit(turns);
      StoredPrefix(turns[..|turns|-1], k);
      assert turns[..|turns|-1][..k] == turns[..k];
    } else {
      assert turns[..k] == turns;
    }
  }

  /** A client alone finds in the log exactly what it has stored. */
  predicate Alone(log: seq<(nat, Bytes)>, turns: seq<TurnRecord>) {
    && TurnsOk(log, 0, turns)
    && AllLines(Commands(log))
    && UntilNow(turns) <= |StoredLines(turns)| <= |Commands(log)| == |log|
    && Commands(log)[..|StoredLines(turns)|] == StoredLines(turns)
  }

  lemma AloneInLog(s: Server)
    requires ServerOk(s) && |s.clients| == 1
    ensures Alone(s.log, s.clients[0].turns)
  {
    hide Commands, Mine, StoredLines, AllLines, SeenOk, SentOk, Lines, Tail, Window, DispatchOf, PosAfter;
    hide Replaying, ReadBack, Drop, Flatten;
    var c := s.clients[0];
    ClientIsOk(s, 0);
    MineIsAll(s.log);
    assert TurnsOk(s.log, 0, c.turns);
    if c.turns != [] {
      LastTurn(s.log, 0, c.turns);
      TurnsSplit(c.turns);
    }
  }

  /** Where the log stood for turn `k` of a client alone. */
  lemma AloneAt(log: seq<(nat, Bytes)>, turns: seq<TurnRecord>, k: nat)
    requires Alone(log, turns) && k < |turns|
    ensures var s, t := SessionAfter(turns[..k]), SessionAfter(turns[..k+1]);
            && turns[k].at <= |log| && Of(s.history) == Log(Window(log[..turns[k].at]), [])
            && turns[k].until <= |log| && Of(t.history) == Log(Window(log[..turns[k].until]), [])
  {
    hide Commands, StoredLines, AllLines, TurnsOk, Of;
    TurnsAreDense(log, 0, turns, k);
    AloneWindow(log, turns, k);
    AloneWindow(log, turns, k + 1);
  }

  lemma AloneWindow(log: seq<(nat, Bytes)>, turns: seq<TurnRecord>, k: nat)
    requires Alone(log, turns) && k <= |turns|
    ensures var n := |StoredLines(turns[..k])|;
            n <= |log| && Of(SessionAfter(turns[..k]).history) == Log(Window(log[..n]), [])
  {
    hide Commands, StoredLines, TurnsOk, Flatten, Lines, Tail, LastTen, IsLine;
    var stored := StoredLines(turns[..k]);
    var n := |stored|;
    StoredPrefix(turns, k);
    CommandsPrefix(log, n);
    assert Commands(log)[..n] == StoredLines(turns)[..n];
    SplitUnique(stored, []);
    assert Flatten(stored) + [] == Flatten(stored);
  }

  lemma HistoryRecorded(turns: seq<TurnRecord>, k: nat, log: seq<(nat, Bytes)>)
    requires k < |turns| && FirstOk(log, 0, turns[k])
    ensures var s, t := SessionAfter(turns[..k]), SessionAfter(turns[..k+1]);
            && t.history == Recorded(s.history, turns[k].line, FaultsOf(turns[k]))
            && t.replies == s.replies + [turns[k].reply] && t.pos == turns[k].after
  {
    hide DispatchOf, StoredLines, Flatten, Replies, Window, PosAfter;
    var more := turns[..k+1];
    assert more[..|more|-1] == turns[..k];
    TurnsSplit(more);
    FlattenSnoc(StoredLines(turns[..k]), turns[k].line);
    assert StoredLines(turns[..k]) + [] == StoredLines(turns[..k]);
  }

  /** Each turn of a client alone is a turn of its session. */
  lemma AloneTurn(log: seq<(nat, Bytes)>, turns: seq<TurnRecord>, k: nat)
    requires Alone(log, turns) && k < |turns|
    ensures var s, t := SessionAfter(turns[..k]), SessionAfter(turns[..k+1]);
            && TurnMay(s, turns[k].line, FaultsOf(turns[k]), t)
            && (Kept(turns[k]) ==> t == Turn(s, turns[k].line))
  {
    hide DispatchOf, StoredLines, Flatten, Replies, Window, AllLines, Commands, Of, Drop, ReadBack, Recorded;
    hide PosAfter, PosNow;
    var s, t, r := SessionAfter(turns[..k]), SessionAfter(turns[..k+1]), turns[k];
    AloneAt(log, turns, k);
    assert TurnOk(log, 0, r) && Follows(turns[..k], r);
    HistoryRecorded(turns, k, log);
    assert t.replies[..|s.replies|] == s.replies && t.replies[|s.replies|] == r.reply;
    if Kept(r) {
      var now := Flatten(Of(t.history).lines);
      assert now + [] == now;
      CompleteTurn(s, r.line, FaultsOf(r), t);
    }
  }

  lemma {:induction false} AloneServes(log: seq<(nat, Bytes)>, turns: seq<TurnRecord>, k: nat)
    requires Alone(log, turns) && k <= |turns|
    requires forall n :: 0 <= n < |turns| ==> Kept(turns[n])
    ensures SessionAfter(turns[..k]) == Serve(NO_SESSION, TurnLines(turns[..k]))
  {
    hide Turn, Kept, TurnMay, SessionAfter, TurnLines, Serve, TurnsOk, AllLines, Commands, StoredLines;
    if k == 0 {
      NoTurns();
    } else {
      var more := turns[..k];
      assert more[..|more|-1] == turns[..k-1];
      AloneServes(log, turns, k - 1);
      AloneTurn(log, turns, k - 1);
      TurnsSplit(more);
      ServeSnoc(NO_SESSION, TurnLines(turns[..k-1]), turns[k-1].line);
    }
  }

  lemma {:induction false} TurnLineAt(turns: seq<TurnRecord>, k: nat)
    requires k < |turns|
    ensures |TurnLines(turns)| == |turns| && TurnLines(turns)[k] == turns[k].line
  {
    if k < |turns| - 1 {
      TurnLineAt(turns[..|turns|-1], k);
    } else if k > 0 {
      TurnLineAt(turns[..|turns|-1], k - 1);
    }
  }

  /** A single client thread, whatever fails, goes through the turns of a
      session; when nothing fails its session is the one of the contract. Between
      lines device, position and bytes sent are those of that session, and its
      lines are those received: the same that the receive loop of SocketServer
      is proved to do. */
  lemma OneClientIsServed(stream: Bytes, schedule: Schedule)
    requires Fits(schedule, 1)
    ensures var turns := Run(Start([stream]), schedule).clients[0].turns;
            && Chain(NO_SESSION, TurnLines(turns), AllFaults(turns), Trace(turns))
            && |Trace(turns)| == |TurnLines(turns)| + 1
            && (Faultless(schedule) ==> SessionAfter(turns) == Serve(NO_SESSION, TurnLines(turns)))
    ensures var s := Run(Start([stream]), schedule);
            var c := s.clients[0];
            var session := SessionAfter(c.turns);
            c.phase.Receiving? ==>
              && Lines(c.seen) == TurnLines(c.turns)
              && s.dev == Of(session.history) && c.pos == session.pos && c.sent == Flatten(session.replies)
  {
    hide ServerOk, Run, Alone, Chain, TurnLines, Trace, AllFaults, Kept, SessionAfter, Of, Lines, Serve;
    StartOk([stream]);
    RunOk(Start([stream]), schedule);
    var s := Run(Start([stream]), schedule);
    AloneInLog(s);
    if Faultless(schedule) {
      RunKeeps([stream], schedule, 0);
    }
    AloneChain(s.log, s.clients[0].turns);
    if s.clients[0].phase.Receiving? {
      AloneBetweenLines(s);
    }
  }

  lemma AloneBetweenLines(s: Server)
    requires ServerOk(s) && |s.clients| == 1 && s.clients[0].phase.Receiving?
    ensures var c := s.clients[0];
            var session := SessionAfter(c.turns);
            && Lines(c.seen) == TurnLines(c.turns)
            && s.dev == Of(session.history) && c.pos == session.pos && c.sent == Flatten(session.replies)
  {
    hide Commands, Mine, StoredLines, AllLines, Lines, Tail, Window, TurnsOk, Flatten, Replies, TurnLines, Of, PosNow;
    hide Alone;
    var c := s.clients[0];
    ClientIsOk(s, 0);
    MineIsAll(s.log);
    AloneInLog(s);
    AloneWindow(s.log, c.turns, |c.turns|);
    assert c.turns[..|c.turns|] == c.turns;
    assert s.log[..|s.log|] == s.log;
    assert StoredLines(c.turns) + [] == StoredLines(c.turns);
    assert Flatten(Replies(c.turns)) + [] == Flatten(Replies(c.turns));
  }

  lemma AloneChain(log: seq<(nat, Bytes)>, turns: seq<TurnRecord>)
    requires Alone(log, turns)
    ensures Chain(NO_SESSION, TurnLines(turns), AllFaults(turns), Trace(turns))
    ensures |Trace(turns)| == |TurnLines(turns)| + 1
    ensures (forall n :: 0 <= n < |turns| ==> Kept(turns[n])) ==>
              SessionAfter(turns) == Serve(NO_SESSION, TurnLines(turns))
  {
    hide Alone, Turn, Kept, TurnMay, FaultsOf, TurnLines;
    var trace, lines, faults := Trace(turns), TurnLines(turns), AllFaults(turns);
    assert turns[..|turns|] == turns;
    if turns != [] {
      TurnLineAt(turns, 0);
    } else {
      NoTurns();
    }
    assert trace[0] == SessionAfter([]) == NO_SESSION;
    forall k | 0 <= k < |turns|
      ensures TurnMay(trace[k], lines[k], FaultsAt(faults, k), trace[k+1])
    {
      AloneTurn(log, turns, k);
      TurnLineAt(turns, k);
    }
    if forall n :: 0 <= n < |turns| ==> Kept(turns[n]) {
      AloneServes(log, turns, |turns|);
    }
  }

  lemma NoTurns()
    ensures TurnLines([]) == []
    ensures SessionAfter([]) == NO_SESSION == Serve(NO_SESSION, [])
  {
  }

  // ---------------------------------------------------------------- the lock is released

  /** How many own steps the holder of the log lock needs to give it back. */
  function LockSteps(s: Server, h: nat): nat
    requires h < |s.clients|
  {
    var c := s.clients[h];
    match c.phase
    case Writing(written) => if written < |c.buffer| then 3 else 2
    case Seeking(_, _) => 2
    case Sending(_, _) => |ReadLoop(s.dev.lines, c.pos)| + 2
    case Unlocking => 1
    case Releasing => 1
    case _ => 0
  }

  /** How often client `h` is scheduled. */
  function Scheduled(schedule: Schedule, h: nat): nat {
    if schedule == [] then 0
    else Scheduled(schedule[..|schedule|-1], h) + if schedule[|schedule|-1].0 == h then 1 else 0
  }

  /** One more read leaves one read less. */
  lemma ReadLoopStep(lines: seq<Bytes>, pos: nat)
    requires AllLines(lines) && ReadChunk(lines, pos) != []
    ensures |ReadLoop(lines, pos)| == 1 + |ReadLoop(lines, pos + |ReadChunk(lines, pos)|)|
  {
    ReadChunkExact(lines, pos);
  }

  /** A step of another client does not touch the holder or what it works on. */
  lemma OtherStep(s: Server, h: nat, i: nat, env: Env)
    requires h < |s.clients| && i < |s.clients| && i != h
    requires s.lock == Some(h) && !Locked(s.clients[i].phase)
    ensures var t := Step(s, i, env);
            && t.lock == s.lock && t.dev == s.dev && t.clients[h] == s.clients[h]
            && LockSteps(t, h) == LockSteps(s, h)
  {
    hide DispatchOf, ReadLoop;
  }

  /** A step of the holder brings it closer to giving the lock back. */
  lemma HolderStep(s: Server, h: nat, env: Env)
    requires ServerOk(s) && h < |s.clients| && s.lock == Some(h)
    ensures var t := Step(s, h, env);
            t.lock.Some? ==> t.lock == Some(h) && LockSteps(t, h) < LockSteps(s, h)
  {
    hide ServerOk, TurnsOk, SeenOk, StoredOk, SentOk, FirstOk, TurnOk, Window, WriteOnce, ReadLoop, ReadChunk;
    hide FixedSizeLlseek, Contents, SeekTo, Replaying, AllLines, Commands;
    var c := s.clients[h];
    ClientIsOk(s, h);
    if c.phase.Writing? && c.phase.written < |c.buffer| {
      HolderWrites(s, h, c, env.write);
    }
    if c.phase.Sending? && ReadChunk(s.dev.lines, c.pos) != [] {
      WindowLines(s.log);
      ReadLoopStep(s.dev.lines, c.pos);
    }
  }

  lemma HolderWrites(s: Server, h: nat, c: Client, faults: WriteFaults)
    requires h < |s.clients| && c == s.clients[h] && ClientOk(s.log, h, c) && s.dev == Log(Window(s.log), [])
    requires c.phase.Writing? && c.phase.written < |c.buffer|
    ensures var t := WriteOnce(s, h, c, c.phase.written, faults);
            && t.lock == s.lock && |t.clients| == |s.clients| && t.clients[h].buffer == c.buffer
            && (t.clients[h].phase == Writing(|c.buffer|) || t.clients[h].phase == Unlocking)
  {
    hide TurnsOk, StoredOk, SentOk, FirstOk, TurnOk, Window, Accepted, FaultyWrite, WriteResult, EndsCommand, Takes;
    WriteOnceExact(s, h, c, faults);
  }

  lemma {:induction false} LockedSoFar(s: Server, h: nat, schedule: Schedule)
    requires ServerOk(s) && Fits(schedule, |s.clients|) && h < |s.clients| && s.lock == Some(h)
    requires forall k :: 0 <= k <= |schedule| ==> Run(s, schedule[..k]).lock.Some?
    ensures Run(s, schedule).lock == Some(h)
    ensures LockSteps(Run(s, schedule), h) + Scheduled(schedule, h) <= LockSteps(s, h)
  {
    hide ServerOk, Step, LockSteps, Locked;
    assert schedule[..|schedule|] == schedule;
    if schedule != [] {
      var init := schedule[..|schedule|-1];
      var (i, env) := schedule[|schedule|-1];
      forall k | 0 <= k <= |init|
        ensures Run(s, init[..k]).lock.Some?
      {
        assert init[..k] == schedule[..k];
      }
      LockedSoFar(s, h, init);
      RunOk(s, init);
      LockedStep(Run(s, init), h, i, env);
    }
  }

  lemma LockedStep(s: Server, h: nat, i: nat, env: Env)
    requires ServerOk(s) && h < |s.clients| && i < |s.clients| && s.lock == Some(h)
    ensures var t := Step(s, i, env);
            t.lock.Some? ==>
              && t.lock == Some(h)
              && LockSteps(t, h) + (if i == h then 1 else 0) <= LockSteps(s, h)
  {
    hide ServerOk, ClientOk, Step, Locked, LockSteps, Window, Commands, AllLines;
    if i == h {
      HolderStep(s, h, env);
    } else {
      ClientIsOk(s, i);
      OtherStep(s, h, i, env);
    }
  }

  lemma LockStepsBound(s: Server, h: nat)
    requires ServerOk(s) && h < |s.clients|
    ensures LockSteps(s, h) <= CAPACITY + 2
    ensures s.lock == Some(h) ==> LockSteps(s, h) > 0
  {
    hide ServerOk, TurnsOk, SeenOk, StoredOk, SentOk, FirstOk, TurnOk, ReadLoop, Flatten, Replies;
    ClientIsOk(s, h);
    WindowLines(s.log);
    FlattenNone();
    assert s.dev.lines[..0] == [];
    ReadLoopExact(s.dev.lines, s.clients[h].pos, 0);
  }

  /** Whatever fails and whatever the other clients do, a client that got the
      log lock gives it back within twelve steps of its own: a stretch of a run
      in which the lock is never free holds fewer steps of its holder than it
      needs, ten of them for readback rounds. */
  lemma LockIsReleased(s: Server, h: nat, schedule: Schedule)
    requires ServerOk(s) && Fits(schedule, |s.clients|) && h < |s.clients| && s.lock == Some(h)
    requires forall k :: 0 <= k <= |schedule| ==> Run(s, schedule[..k]).lock.Some?
    ensures Scheduled(schedule, h) < LockSteps(s, h) <= CAPACITY + 2
  {
    hide ServerOk, LockSteps, Step;
    LockedSoFar(s, h, schedule);
    RunOk(s, schedule);
    LockStepsBound(s, h);
    LockStepsBound(Run(s, schedule), h);
  }

  // ---------------------------------------------------------------- buffer size

  lemma {:induction false} MineHas(log: seq<(nat, Bytes)>, k: nat)
    requires k < |log|
    ensures log[k].1 in Mine(log, log[k].0)
  {
    if k < |log| - 1 {
      MineHas(log[..|log|-1], k);
    }
  }

  lemma {:induction false} StoredAmongLines(turns: seq<TurnRecord>, l: Bytes)
    requires l in StoredLines(turns)
    ensures l in TurnLines(turns)
  {
    var init := turns[..|turns|-1];
    if l in StoredLines(init) {
      StoredAmongLines(init, l);
    }
  }

  /** Every command in the log is a line that its client sent. */
  lemma LogEntriesAreLines(streams: seq<Bytes>, schedule: Schedule, k: nat)
    requires Fits(schedule, |streams|)
    requires k < |Run(Start(streams), schedule).log|
    ensures var (i, l) := Run(Start(streams), schedule).log[k]; i < |streams| && l in Lines(streams[i])
  {
    StartOk(streams);
    RunOk(Start(streams), schedule);
    var s := Run(Start(streams), schedule);
    var (i, l) := s.log[k];
    RunKeepsStreams(streams, schedule, i);
    hide Run, TurnsOk, PhaseOk, SentOk, Lines, Tail, Mine, StoredLines, TurnLines, Commands;
    var c := s.clients[i];
    ClientIsOk(s, i);
    MineHas(s.log, k);
    if l in StoredLines(c.turns) {
      StoredAmongLines(c.turns, l);
    }
    assert l in Lines(c.seen);
    LinesGrow(c.seen, c.unread);
  }

  /** In every reachable state, reads at every position fit a buffer exactly when
      the commands of the window do. */
  lemma ReadsFitWindowIff(streams: seq<Bytes>, schedule: Schedule, bound: nat)
    requires Fits(schedule, |streams|)
    ensures var s := Run(Start(streams), schedule);
            AllWithin(Window(s.log), bound) <==> forall pos: nat :: |ReadChunk(s.dev.lines, pos)| <= bound
  {
    DeviceIsWindow(streams, schedule);
    var s := Run(Start(streams), schedule);
    assert AllLines(Window(s.log));
    hide Run, Window, AllLines, AllWithin, ReadChunk;
    ReadsFitIff(s.dev.lines, bound);
  }

  /** When no client sends a line longer than the readback buffer, no read ever
      returns more than the buffer holds. */
  lemma ReadsFitTheBuffer(streams: seq<Bytes>, schedule: Schedule, bound: nat, pos: nat)
    requires Fits(schedule, |streams|)
    requires forall i :: 0 <= i < |streams| ==> AllWithin(Lines(streams[i]), bound)
    ensures |ReadChunk(Run(Start(streams), schedule).dev.lines, pos)| <= bound
  {
    DeviceIsWindow(streams, schedule);
    var s := Run(Start(streams), schedule);
    hide Run, TurnsOk, Lines, ReadChunk;
    if s.log != [] {
      forall k | 0 <= k < |s.log|
        ensures |Commands(s.log)| == |s.log| && |Commands(s.log)[k]| <= bound
      {
        CommandsAt(s.log, k);
        LogEntriesAreLines(streams, schedule, k);
      }
      assert |Commands(s.log)[0]| <= bound;
    }
    assert AllWithin(Commands(s.log), bound);
    ChunkWithin(s.dev.lines, pos, bound);
  }
}
