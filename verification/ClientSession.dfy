/** What a client of the server may expect: each line it sends is one turn that
    may append to the log or move its own position, and is answered by the log
    from that position on. */
module ClientSession {
  import opened ByteStream
  import opened CommandLog
  import opened SeekCommand

  /** The device's byte history, the client's position, and its replies so far. */
  datatype Session = Session(history: Bytes, pos: nat, replies: seq<Bytes>)

  /** Only a well-formed seek line moves the position. */
  function PosAfter(lines: seq<Bytes>, pos: nat, line: Bytes): nat {
    match DispatchOf(line)
    case Seek(cmd, offset) => SeekTo(lines, pos, cmd, offset)
    case _ => pos
  }

  /** Only a text line reaches the device. */
  function HistoryAfter(history: Bytes, line: Bytes): Bytes {
    if DispatchOf(line).Text? then history + line else history
  }

  function Turn(s: Session, line: Bytes): Session {
    var history := HistoryAfter(s.history, line);
    var pos := PosAfter(Of(s.history).lines, s.pos, line);
    Session(history, pos, s.replies + [Drop(Contents(Of(history)), pos)])
  }

  function Serve(s: Session, lines: seq<Bytes>): Session {
    if lines == [] then s else Turn(Serve(s, lines[..|lines|-1]), lines[|lines|-1])
  }

  lemma ServeSnoc(s: Session, lines: seq<Bytes>, line: Bytes)
    ensures Serve(s, lines + [line]) == Turn(Serve(s, lines), line)
  {
    assert (lines + [line])[..|lines|] == lines;
  }

  /** The text lines among `lines`. */
  function TextLines(lines: seq<Bytes>): seq<Bytes> {
    if lines == [] then []
    else TextLines(lines[..|lines|-1]) + if DispatchOf(lines[|lines|-1]).Text? then [lines[|lines|-1]] else []
  }

  /** Starting between commands, the commands on the device after serving are
      those before, followed by the client's text lines. */
  lemma {:induction false} ServedCommands(s: Session, lines: seq<Bytes>)
    requires Tail(s.history) == [] && AllLines(lines)
    ensures Lines(Serve(s, lines).history) == Lines(s.history) + TextLines(lines)
    ensures Tail(Serve(s, lines).history) == []
  {
    if lines == [] {
      assert Lines(s.history) + [] == Lines(s.history);
    } else {
      var init, line := lines[..|lines|-1], lines[|lines|-1];
      ServedCommands(s, init);
      if DispatchOf(line).Text? {
        AppendLine(Serve(s, init).history, line);
        assert [] + line == line;
        Assoc(Lines(s.history), TextLines(init), [line]);
      }
    }
  }

  /** The end-to-end contract, line by line: the reply to line `k` is the last
      ten of all commands up to and including it, laid end to end, from the
      client's position on; and the position moved only if the line is a
      well-formed seek. */
  lemma EndToEnd(s: Session, stream: Bytes, k: nat)
    requires Tail(s.history) == [] && k < |Lines(stream)|
    ensures var sent := Lines(stream);
            var commands := LastTen(Lines(s.history) + TextLines(sent[..k]));
            var before, after := Serve(s, sent[..k]), Serve(s, sent[..k+1]);
            && after.replies == before.replies
                 + [Drop(Flatten(LastTen(Lines(s.history) + TextLines(sent[..k+1]))), after.pos)]
            && after.pos == match DispatchOf(sent[k])
                            case Seek(cmd, offset) => SeekTo(commands, before.pos, cmd, offset)
                            case _ => before.pos
  {
    var sent := Lines(stream);
    SplitExact(stream);
    hide Lines, Tail, DispatchOf, TextLines, Serve, SeekTo, Flatten, LastTen, Drop;
    assert sent[..k+1] == sent[..k] + [sent[k]];
    ServeSnoc(s, sent[..k], sent[k]);
    ServedCommands(s, sent[..k]);
    ServedCommands(s, sent[..k+1]);
  }

  /** A text line alone changes the log, and by exactly itself; a malformed
      seek line changes nothing at all. */
  lemma TurnEffect(s: Session, line: Bytes)
    requires Tail(s.history) == [] && IsLine(line)
    ensures DispatchOf(line).Text? ==>
              && Of(Turn(s, line).history) == Log(LastTen(Of(s.history).lines + [line]), [])
              && Turn(s, line).pos == s.pos
    ensures !DispatchOf(line).Text? ==> Turn(s, line).history == s.history
    ensures DispatchOf(line).Malformed? ==> Turn(s, line).pos == s.pos
  {
    AppendLine(s.history, line);
    LastTenSnoc(Lines(s.history), line);
    assert [] + line == line;
  }

  /** A seek line that the device refuses changes neither the device nor the
      position, and is answered from there. */
  lemma RefusedSeekLine(s: Session, line: Bytes)
    requires DispatchOf(line).Seek?
    requires SeekRefused(Of(s.history).lines, DispatchOf(line).cmd, DispatchOf(line).offset)
    ensures Turn(s, line) == Session(s.history, s.pos, s.replies + [Drop(Flatten(Of(s.history).lines), s.pos)])
  {
    SeekEffect(Of(s.history).lines, s.pos, DispatchOf(line).cmd, DispatchOf(line).offset);
  }

  // ---------------------------------------------------------------- failures

  /** What fails during one turn: services of the write, the copy of the seek
      request, and the copies of the reads of the readback. */
  datatype TurnFaults = TurnFaults(write: WriteFaults, seek: bool, copies: seq<bool>)

  const NO_TURN_FAULTS := TurnFaults(NO_FAULTS, false, [])

  /** The failures of turn `k`; nothing fails beyond the end of the script. */
  function FaultsAt(faults: seq<TurnFaults>, k: nat): TurnFaults {
    if k < |faults| then faults[k] else NO_TURN_FAULTS
  }

  /** A text line is stored whole, or not at all when its write fails before
      taking it. */
  function Recorded(history: Bytes, line: Bytes, f: TurnFaults): Bytes {
    if DispatchOf(line).Text? && Takes(f.write) then history + line else history
  }

  /** The position the readback starts from. */
  function Asked(lines: seq<Bytes>, pos: nat, line: Bytes, f: TurnFaults): nat {
    if f.seek then pos else PosAfter(lines, pos, line)
  }

  /** The readback from `asked` of a device with `lines` sent `reply` and left
      the position at `pos`: all there is, back where it started; or, when it
      was cut short, a beginning, and the position where reading stopped. */
  predicate ReadBack(lines: seq<Bytes>, asked: nat, reply: Bytes, pos: nat) {
    var full := Drop(Flatten(lines), asked);
    || (reply == full && pos == asked)
    || (reply <= full && asked + |reply| <= pos <= asked + |full|)
  }

  /** What a turn under failures `f`, over any network, may make of a session. */
  predicate TurnMay(s: Session, line: Bytes, f: TurnFaults, t: Session) {
    && t.history == Recorded(s.history, line, f)
    && |t.replies| == |s.replies| + 1 && t.replies[..|s.replies|] == s.replies
    && ReadBack(Of(t.history).lines, Asked(Of(s.history).lines, s.pos, line, f), t.replies[|s.replies|], t.pos)
  }

  /** Successive sessions from `start`, one turn each for the first lines. */
  predicate Chain(start: Session, lines: seq<Bytes>, faults: seq<TurnFaults>, trace: seq<Session>) {
    && 0 < |trace| <= |lines| + 1 && trace[0] == start
    && forall k :: 0 <= k < |trace| - 1 ==> TurnMay(trace[k], lines[k], FaultsAt(faults, k), trace[k+1])
  }

  lemma ChainSnoc(start: Session, lines: seq<Bytes>, faults: seq<TurnFaults>, trace: seq<Session>,
                  line: Bytes, t: Session)
    requires Chain(start, lines, faults, trace) && |trace| == |lines| + 1
    requires TurnMay(trace[|lines|], line, FaultsAt(faults, |lines|), t)
    ensures Chain(start, lines + [line], faults, trace + [t])
  {
    hide TurnMay;
  }

  /** Without failures a turn that completes is the turn of the contract. */
  lemma CompleteTurn(s: Session, line: Bytes, f: TurnFaults, t: Session)
    requires TurnMay(s, line, f, t) && f == NO_TURN_FAULTS
    requires t.pos == PosAfter(Of(s.history).lines, s.pos, line)
    requires t.replies[|s.replies|] == Drop(Contents(Of(t.history)), t.pos)
    ensures t == Turn(s, line)
  {
    assert t.replies == s.replies + [t.replies[|s.replies|]];
  }

  /** The device's history after serving `lines`, which the network has no part in. */
  function HistoryUpTo(history: Bytes, lines: seq<Bytes>, faults: seq<TurnFaults>): Bytes {
    if lines == [] then history
    else
      var n := |lines| - 1;
      Recorded(HistoryUpTo(history, lines[..n], faults), lines[n], FaultsAt(faults, n))
  }

  lemma HistorySnoc(history: Bytes, lines: seq<Bytes>, faults: seq<TurnFaults>, line: Bytes)
    ensures HistoryUpTo(history, lines + [line], faults)
         == Recorded(HistoryUpTo(history, lines, faults), line, FaultsAt(faults, |lines|))
  {
    assert (lines + [line])[..|lines|] == lines;
  }

  lemma {:induction false} ChainHistory(start: Session, lines: seq<Bytes>, faults: seq<TurnFaults>,
                                        trace: seq<Session>, k: nat)
    requires Chain(start, lines, faults, trace) && k < |trace|
    ensures trace[k].history == HistoryUpTo(start.history, lines[..k], faults)
  {
    hide Of, Recorded, Asked, ReadBack;
    if k > 0 {
      ChainHistory(start, lines, faults, trace, k - 1);
      assert TurnMay(trace[k-1], lines[k-1], FaultsAt(faults, k - 1), trace[k]);
      assert lines[..k] == lines[..k-1] + [lines[k-1]];
      HistorySnoc(start.history, lines[..k-1], faults, lines[k-1]);
    }
  }

  /** The text lines among `lines` whose writes did not fail. */
  function StoredTexts(lines: seq<Bytes>, faults: seq<TurnFaults>): seq<Bytes> {
    if lines == [] then []
    else
      var n := |lines| - 1;
      StoredTexts(lines[..n], faults)
        + if DispatchOf(lines[n]).Text? && Takes(FaultsAt(faults, n).write) then [lines[n]] else []
  }

  lemma {:induction false} StoredCommands(history: Bytes, lines: seq<Bytes>, faults: seq<TurnFaults>)
    requires Tail(history) == [] && AllLines(lines)
    ensures Lines(HistoryUpTo(history, lines, faults)) == Lines(history) + StoredTexts(lines, faults)
    ensures Tail(HistoryUpTo(history, lines, faults)) == []
  {
    if lines == [] {
      assert Lines(history) + [] == Lines(history);
    } else {
      var init, line := lines[..|lines|-1], lines[|lines|-1];
      StoredCommands(history, init, faults);
      AppendLine(HistoryUpTo(history, init, faults), line);
      hide Lines, Tail, DispatchOf;
      assert [] + line == line;
      assert StoredTexts(init, faults) + [] == StoredTexts(init, faults);
      Assoc(Lines(history), StoredTexts(init, faults), [line]);
    }
  }

  /** Whatever fails, the reply to line `k` is the last ten of the commands
      stored so far, laid end to end, from the position asked for, or a
      beginning of that. */
  lemma EveryReply(start: Session, lines: seq<Bytes>, faults: seq<TurnFaults>, trace: seq<Session>, k: nat)
    requires Tail(start.history) == [] && AllLines(lines)
    requires Chain(start, lines, faults, trace) && k < |trace| - 1
    ensures var before, after := trace[k], trace[k+1];
            var earlier := LastTen(Lines(start.history) + StoredTexts(lines[..k], faults));
            var now := LastTen(Lines(start.history) + StoredTexts(lines[..k+1], faults));
            && |after.replies| == |before.replies| + 1 && after.replies[..|before.replies|] == before.replies
            && ReadBack(now, Asked(earlier, before.pos, lines[k], FaultsAt(faults, k)),
                        after.replies[|before.replies|], after.pos)
  {
    assert TurnMay(trace[k], lines[k], FaultsAt(faults, k), trace[k+1]);
    ChainHistory(start, lines, faults, trace, k);
    ChainHistory(start, lines, faults, trace, k + 1);
    StoredCommands(start.history, lines[..k], faults);
    StoredCommands(start.history, lines[..k+1], faults);
    hide Lines, Tail, DispatchOf, StoredTexts, HistoryUpTo, SeekTo, Flatten, LastTen, Drop, Chain, ReadBack, Asked;
  }

  // ---------------------------------------------------------------- line lengths

  /** The position after serving `lines` when every readback is complete. */
  function PositionUpTo(history: Bytes, pos: nat, lines: seq<Bytes>, faults: seq<TurnFaults>): nat {
    if lines == [] then pos
    else
      var n := |lines| - 1;
      Asked(Of(HistoryUpTo(history, lines[..n], faults)).lines, PositionUpTo(history, pos, lines[..n], faults),
            lines[n], FaultsAt(faults, n))
  }

  lemma PositionSnoc(history: Bytes, pos: nat, lines: seq<Bytes>, faults: seq<TurnFaults>, line: Bytes)
    ensures PositionUpTo(history, pos, lines + [line], faults)
         == Asked(Of(HistoryUpTo(history, lines, faults)).lines, PositionUpTo(history, pos, lines, faults),
                  line, FaultsAt(faults, |lines|))
  {
    assert (lines + [line])[..|lines|] == lines;
  }

  /** Without failures that is the position of the session. */
  lemma {:induction false} ServedPosition(s: Session, lines: seq<Bytes>)
    ensures Serve(s, lines).pos == PositionUpTo(s.history, s.pos, lines, [])
    ensures Serve(s, lines).history == HistoryUpTo(s.history, lines, [])
  {
    hide Of, DispatchOf, Drop, SeekTo;
    if lines != [] {
      ServedPosition(s, lines[..|lines|-1]);
    }
  }

  /** A readback that is cut short only leaves the position further on. */
  lemma {:induction false} ChainPosition(start: Session, lines: seq<Bytes>, faults: seq<TurnFaults>,
                                         trace: seq<Session>, k: nat)
    requires Chain(start, lines, faults, trace) && k < |trace|
    ensures trace[k].pos >= PositionUpTo(start.history, start.pos, lines[..k], faults)
  {
    hide Of, Recorded, Drop, Flatten, DispatchOf, SeekTo, HistoryUpTo;
    if k > 0 {
      ChainPosition(start, lines, faults, trace, k - 1);
      ChainHistory(start, lines, faults, trace, k - 1);
      assert TurnMay(trace[k-1], lines[k-1], FaultsAt(faults, k - 1), trace[k]);
      assert lines[..k] == lines[..k-1] + [lines[k-1]];
      PositionSnoc(start.history, start.pos, lines[..k-1], faults, lines[k-1]);
      AskedMonotone(Of(trace[k-1].history).lines, trace[k-1].pos,
                    PositionUpTo(start.history, start.pos, lines[..k-1], faults), lines[k-1], FaultsAt(faults, k - 1));
    }
  }

  lemma AskedMonotone(lines: seq<Bytes>, pos: nat, less: nat, line: Bytes, f: TurnFaults)
    requires less <= pos
    ensures Asked(lines, less, line, f) <= Asked(lines, pos, line, f)
  {
    hide DispatchOf, IoctlTarget, Flatten;
  }

  /** What each readback has to read is within `bound`. */
  predicate ReadbacksFit(history: Bytes, pos: nat, lines: seq<Bytes>, faults: seq<TurnFaults>, bound: nat) {
    forall k :: 0 < k <= |lines| ==>
      AllWithin(ReadLoop(Of(HistoryUpTo(history, lines[..k], faults)).lines,
                         PositionUpTo(history, pos, lines[..k], faults)), bound)
  }

  /** Then it is so also when readbacks are cut short. */
  lemma NextReadbackFits(start: Session, lines: seq<Bytes>, faults: seq<TurnFaults>, trace: seq<Session>, k: nat,
                         bound: nat)
    requires Chain(start, lines, faults, trace) && k < |trace| && k < |lines|
    requires ReadbacksFit(start.history, start.pos, lines, faults, bound)
    ensures var s, f := trace[k], FaultsAt(faults, k);
            AllWithin(ReadLoop(Of(Recorded(s.history, lines[k], f)).lines,
                               Asked(Of(s.history).lines, s.pos, lines[k], f)), bound)
  {
    hide Of, Recorded, HistoryUpTo, Chain, Asked, ReadLoop, PositionUpTo, AllWithin;
    var s, f, init := trace[k], FaultsAt(faults, k), lines[..k];
    ChainHistory(start, lines, faults, trace, k);
    ChainPosition(start, lines, faults, trace, k);
    assert lines[..k+1] == init + [lines[k]];
    HistorySnoc(start.history, init, faults, lines[k]);
    PositionSnoc(start.history, start.pos, init, faults, lines[k]);
    var least := PositionUpTo(start.history, start.pos, init, faults);
    AskedMonotone(Of(s.history).lines, s.pos, least, lines[k], f);
    LineShape(Recorded(s.history, lines[k], f));
    ReplayWithinLater(Of(Recorded(s.history, lines[k], f)).lines, Asked(Of(s.history).lines, least, lines[k], f),
                      Asked(Of(s.history).lines, s.pos, lines[k], f), bound);
  }

  /** Short commands in the window and short text lines from the client are
      enough for that, from any position; commands that have left the window do
      not matter. */
  lemma ShortLinesFit(history: Bytes, pos: nat, lines: seq<Bytes>, faults: seq<TurnFaults>, bound: nat)
    requires Tail(history) == [] && AllLines(lines)
    requires AllWithin(Of(history).lines, bound) && AllWithin(TextLines(lines), bound)
    ensures ReadbacksFit(history, pos, lines, faults, bound)
  {
    hide Lines, Tail, DispatchOf, Of, HistoryUpTo, ReadLoop, AllWithin, PositionUpTo;
    forall k | 0 < k <= |lines|
      ensures AllWithin(ReadLoop(Of(HistoryUpTo(history, lines[..k], faults)).lines,
                                 PositionUpTo(history, pos, lines[..k], faults)), bound)
    {
      TextLinesWithin(lines, k, bound);
      ShortWindow(history, lines[..k], faults, bound);
      ReplayWithin(Of(HistoryUpTo(history, lines[..k], faults)).lines,
                   PositionUpTo(history, pos, lines[..k], faults), bound);
    }
  }

  lemma {:induction false} ShortWindow(history: Bytes, lines: seq<Bytes>, faults: seq<TurnFaults>, bound: nat)
    requires Tail(history) == [] && AllLines(lines)
    requires AllWithin(Of(history).lines, bound) && AllWithin(TextLines(lines), bound)
    ensures AllWithin(Of(HistoryUpTo(history, lines, faults)).lines, bound)
  {
    hide Lines, Tail, DispatchOf, Of, LastTen, AllWithin, TextLines;
    if lines != [] {
      var n := |lines| - 1;
      var init, line := lines[..n], lines[n];
      var h := HistoryUpTo(history, init, faults);
      TextLinesPrefix(lines, bound);
      ShortWindow(history, init, faults, bound);
      StoredCommands(history, init, faults);
      WindowAfterLine(h, line);
      LastTenWithin(Of(h).lines, line, bound);
    }
  }

  lemma {:induction false} TextLinesWithin(lines: seq<Bytes>, k: nat, bound: nat)
    requires k <= |lines| && AllWithin(TextLines(lines), bound)
    ensures AllWithin(TextLines(lines[..k]), bound)
  {
    hide TextLines, AllWithin;
    if k == |lines| {
      assert lines[..k] == lines;
    } else {
      TextLinesPrefix(lines, bound);
      TextLinesWithin(lines[..|lines|-1], k, bound);
      assert lines[..|lines|-1][..k] == lines[..k];
    }
  }

  lemma TextLinesPrefix(lines: seq<Bytes>, bound: nat)
    requires lines != [] && AllWithin(TextLines(lines), bound)
    ensures AllWithin(TextLines(lines[..|lines|-1]), bound)
    ensures DispatchOf(lines[|lines|-1]).Text? ==> |lines[|lines|-1]| <= bound
  {
    hide DispatchOf;
    var texts, line := TextLines(lines[..|lines|-1]), lines[|lines|-1];
    if DispatchOf(line).Text? {
      assert (texts + [line])[|texts|] == line;
    }
    forall i | 0 <= i < |texts|
      ensures |texts[i]| <= bound
    {
      assert texts[i] == TextLines(lines)[i];
    }
  }

  lemma WindowAfterLine(history: Bytes, line: Bytes)
    requires Tail(history) == [] && IsLine(line)
    ensures Of(history + line).lines == LastTen(Of(history).lines + [line])
  {
    AppendLine(history, line);
    LastTenSnoc(Lines(history), line);
    assert [] + line == line;
  }

  lemma LastTenWithin(lines: seq<Bytes>, line: Bytes, bound: nat)
    requires AllWithin(lines, bound)
    ensures |line| <= bound ==> AllWithin(LastTen(lines + [line]), bound)
  {
  }
}
