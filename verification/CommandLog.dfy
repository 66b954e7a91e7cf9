/** What the aesdchar device means, without slots, indices or pointers: the
    last ten complete commands, the unfinished one, and the operations that
    treat the commands as one seekable byte string. */
module CommandLog {
  import opened ByteStream

  /** `lines` is the readable part, `pending` the unfinished command. */
  datatype Log = Log(lines: seq<Bytes>, pending: Bytes)

  const EMPTY := Log([], [])

  /** The state reached by accepting the bytes of `history`, however cut. */
  function Of(history: Bytes): Log {
    Log(LastTen(Lines(history)), Tail(history))
  }

  function Contents(log: Log): Bytes {
    Flatten(log.lines)
  }

  function Drop(b: Bytes, pos: nat): Bytes {
    if pos <= |b| then b[pos..] else []
  }

  // ---------------------------------------------------------------- write

  /** One uninterrupted write call: take one piece, and if that finishes the
      command, move it to the ring. */
  function AtomicWrite(log: Log, buf: Bytes): Log {
    var n := Accepted(buf);
    var command := log.pending + buf[..n];
    if EndsCommand(buf, n) then Log(LastTen(log.lines + [command]), [])
    else Log(log.lines, command)
  }

  const ENOMEM := 12
  const EFAULT := 14
  const EINVAL := 22

  /** Which kernel services fail during a write: the scratch allocation, the
      copy from user space, the growth of the unfinished command, and the
      allocation that starts the next one after a commit. */
  datatype WriteFaults = WriteFaults(scratch: bool, copy: bool, grow: bool, reset: bool)

  const NO_FAULTS := WriteFaults(false, false, false, false)

  /** The write gets as far as taking its piece. */
  predicate Takes(faults: WriteFaults) {
    !faults.scratch && !faults.copy && !faults.grow
  }

  function Taken(buf: Bytes, faults: WriteFaults): Bytes {
    if Takes(faults) then buf[..Accepted(buf)] else []
  }

  function WriteResult(buf: Bytes, faults: WriteFaults): int {
    if faults.scratch then -ENOMEM
    else if faults.copy then -EFAULT
    else if faults.grow || (EndsCommand(buf, Accepted(buf)) && faults.reset) then -ENOMEM
    else Accepted(buf)
  }

  /** What a write returns: how many bytes it took, up to its first newline, or
      the error that names the first service to fail. */
  lemma ResultIsTaken(buf: Bytes, faults: WriteFaults)
    ensures var r := WriteResult(buf, faults);
            && (r >= 0 ==> IsCut(buf, r) && Taken(buf, faults) == buf[..r])
            && (r < 0 ==> r == if faults.copy && !faults.scratch then -EFAULT else -ENOMEM)
            && (r < 0 <==> faults.scratch || faults.copy || faults.grow || (faults.reset && NEWLINE in buf))
  {
    hide Accepted, IsCut;
    AcceptedIsCut(buf);
    EndsIffNewline(buf);
  }

  /** A write returns the number of bytes it took, and fails only when it took
      none, with one exception: when the allocation after a commit fails, it
      reports a failure although the command is already stored. */
  lemma ReportIsTruthful(buf: Bytes, faults: WriteFaults)
    ensures var result, taken := WriteResult(buf, faults), Taken(buf, faults);
            (if result >= 0 then result == |taken| else taken == [])
            <==> !(Takes(faults) && faults.reset && EndsCommand(buf, Accepted(buf)))
  {
  }

  /** A write moves the state of a history to the state of the longer history. */
  lemma WriteExtends(history: Bytes, buf: Bytes)
    ensures AtomicWrite(Of(history), buf) == Of(history + buf[..Accepted(buf)])
  {
    AcceptedShape(buf);
    var piece := buf[..Accepted(buf)];
    if EndsCommand(buf, Accepted(buf)) {
      AppendLine(history, piece);
      LastTenSnoc(Lines(history), Tail(history) + piece);
    } else {
      AppendPiece(history, piece);
    }
  }

  /** The state after a write that may fail: unchanged when nothing was taken. */
  function FaultyWrite(log: Log, buf: Bytes, faults: WriteFaults): Log {
    if Takes(faults) then AtomicWrite(log, buf) else log
  }

  lemma FaultyWriteExtends(history: Bytes, buf: Bytes, faults: WriteFaults)
    ensures FaultyWrite(Of(history), buf, faults) == Of(history + Taken(buf, faults))
  {
    WriteExtends(history, buf);
    assert history + [] == history;
  }

  /** A caller that resubmits what a short write left over. */
  function WriteFully(log: Log, buf: Bytes): Log
    decreases |buf|
  {
    if buf == [] then log else WriteFully(AtomicWrite(log, buf), buf[Accepted(buf)..])
  }

  lemma {:induction false} WriteFullyExtends(history: Bytes, buf: Bytes)
    ensures WriteFully(Of(history), buf) == Of(history + buf)
    decreases |buf|
  {
    hide Of, AtomicWrite;
    if buf == [] {
      assert history + buf == history;
    } else {
      var n := Accepted(buf);
      WriteExtends(history, buf);
      WriteFullyExtends(history + buf[..n], buf[n..]);
      assert buf == buf[..n] + buf[n..];
      Assoc(history, buf[..n], buf[n..]);
    }
  }

  function SubmitAll(log: Log, chunks: seq<Bytes>): Log {
    if chunks == [] then log
    else WriteFully(SubmitAll(log, chunks[..|chunks|-1]), chunks[|chunks|-1])
  }

  lemma {:induction false} SubmitAllExtends(history: Bytes, chunks: seq<Bytes>)
    ensures SubmitAll(Of(history), chunks) == Of(history + Flatten(chunks))
  {
    if chunks == [] {
      assert history + Flatten(chunks) == history;
    } else {
      var init, last := chunks[..|chunks|-1], chunks[|chunks|-1];
      SubmitAllExtends(history, init);
      WriteFullyExtends(history + Flatten(init), last);
      Assoc(history, Flatten(init), last);
    }
  }

  /** Chunking independence: from any reachable state, two ways of cutting the
      same stream into writes reach the same device state, and it is the split
      of the whole stream into commands. */
  lemma ChunkingIndependence(history: Bytes, chunks: seq<Bytes>, others: seq<Bytes>)
    requires Flatten(chunks) == Flatten(others)
    ensures SubmitAll(Of(history), chunks) == SubmitAll(Of(history), others)
    ensures SubmitAll(Of(history), chunks).lines == LastTen(Lines(history + Flatten(chunks)))
    ensures SubmitAll(Of(history), chunks).pending == Tail(history + Flatten(chunks))
  {
    SubmitAllExtends(history, chunks);
    SubmitAllExtends(history, others);
  }

  /** Every reachable state holds at most ten commands, each with its newline
      at the end and nowhere else, and a newline-free unfinished command. */
  lemma LineShape(history: Bytes)
    ensures |Of(history).lines| <= CAPACITY
    ensures AllLines(Of(history).lines) && NEWLINE !in Of(history).pending
  {
    SplitExact(history);
  }

  // ---------------------------------------------------------------- read

  /** What one read at `pos` hands back: the rest of the command there. */
  function ReadChunk(lines: seq<Bytes>, pos: nat): Bytes {
    if lines == [] then []
    else if pos < |lines[0]| then lines[0][pos..]
    else ReadChunk(lines[1..], pos - |lines[0]|)
  }

  lemma BeforeDropFirst(lines: seq<Bytes>, k: nat)
    requires 0 < k <= |lines|
    ensures Before(lines, k) == |lines[0]| + Before(lines[1..], k - 1)
  {
    assert lines[..k] == [lines[0]] + lines[1..][..k-1];
    FlattenCons(lines[0], lines[1..][..k-1]);
  }

  /** A read in line `k` returns exactly the rest of line `k`. */
  lemma {:induction false} ReadChunkInLine(lines: seq<Bytes>, pos: nat, k: nat)
    requires k < |lines| && Before(lines, k) <= pos < Before(lines, k) + |lines[k]|
    ensures ReadChunk(lines, pos) == lines[k][pos - Before(lines, k)..]
  {
    if k > 0 {
      BeforeDropFirst(lines, k);
      ReadChunkInLine(lines[1..], pos - |lines[0]|, k - 1);
    } else {
      assert lines[..0] == [];
    }
  }

  lemma {:induction false} ReadChunkAtEnd(lines: seq<Bytes>, pos: nat)
    requires |Flatten(lines)| <= pos
    ensures ReadChunk(lines, pos) == []
  {
    if lines != [] {
      BeforeDropFirst(lines, |lines|);
      assert lines[..|lines|] == lines && lines[1..][..|lines|-1] == lines[1..];
      ReadChunkAtEnd(lines[1..], pos - |lines[0]|);
    }
  }

  /** Every position inside the contents lies in some line. */
  lemma {:induction false} LocateLine(lines: seq<Bytes>, pos: nat) returns (k: nat)
    requires pos < |Flatten(lines)|
    ensures k < |lines| && Before(lines, k) <= pos < Before(lines, k) + |lines[k]|
  {
    var init := lines[..|lines|-1];
    if pos < |Flatten(init)| {
      k := LocateLine(init, pos);
      assert lines[..k] == init[..k];
    } else {
      k := |lines| - 1;
    }
  }

  /** A read returns a piece of the contents at the position, empty exactly at
      or past the end; it stops right after the next newline. */
  lemma ReadChunkExact(lines: seq<Bytes>, pos: nat)
    requires AllLines(lines)
    ensures ReadChunk(lines, pos) == [] <==> |Flatten(lines)| <= pos
    ensures pos < |Flatten(lines)| ==>
              && pos + |ReadChunk(lines, pos)| <= |Flatten(lines)|
              && ReadChunk(lines, pos) == Flatten(lines)[pos..pos + |ReadChunk(lines, pos)|]
              && IsLine(ReadChunk(lines, pos))
  {
    hide ReadChunk, Flatten, IsLine;
    if pos < |Flatten(lines)| {
      var k := LocateLine(lines, pos);
      ReadChunkInLine(lines, pos, k);
      LineOccupies(lines, k);
      var start := Before(lines, k);
      LineSuffix(lines[k], pos - start);
      SliceOfSlice(Flatten(lines), start, Before(lines, k + 1), pos - start);
      hide Before;
    } else {
      ReadChunkAtEnd(lines, pos);
    }
  }

  lemma LineSuffix(l: Bytes, at: nat)
    requires IsLine(l) && at < |l|
    ensures IsLine(l[at..]) && l[at..] != []
  {
    assert l[at..][..|l[at..]|-1] == l[..|l|-1][at..];
  }

  /** How large a buffer one read needs: at a position in command `k` it fits
      exactly when the rest of that command does. */
  lemma ReadFitsIff(lines: seq<Bytes>, pos: nat, k: nat, bound: nat)
    requires k < |lines| && Before(lines, k) <= pos < Before(lines, k) + |lines[k]|
    ensures |ReadChunk(lines, pos)| <= bound <==> Before(lines, k + 1) - pos <= bound
  {
    ReadChunkInLine(lines, pos, k);
    BeforeNext(lines, k);
  }

  lemma {:induction false} ChunkWithin(lines: seq<Bytes>, pos: nat, bound: nat)
    requires AllWithin(lines, bound)
    ensures |ReadChunk(lines, pos)| <= bound
  {
    if lines != [] && pos >= |lines[0]| {
      ChunkWithin(lines[1..], pos - |lines[0]|, bound);
    }
  }

  /** How large a buffer all reads need: reads at every position fit exactly
      when every stored command does. */
  lemma ReadsFitIff(lines: seq<Bytes>, bound: nat)
    requires AllLines(lines)
    ensures AllWithin(lines, bound) <==> forall pos: nat :: |ReadChunk(lines, pos)| <= bound
  {
    if AllWithin(lines, bound) {
      forall pos: nat
        ensures |ReadChunk(lines, pos)| <= bound
      {
        ChunkWithin(lines, pos, bound);
      }
    } else {
      var k :| 0 <= k < |lines| && |lines[k]| > bound;
      ReadChunkInLine(lines, Before(lines, k), k);
    }
  }

  /** A single command longer than the buffer is enough for a read from the
      start of the device not to fit. */
  lemma LongCommandDoesNotFit(command: Bytes, bound: nat)
    requires IsLine(command) && |command| > bound
    ensures |ReadChunk(Of(command).lines, 0)| > bound
  {
    AppendLine([], command);
    assert [] + command == command;
    assert Of(command).lines == [command];
  }

  /** The chunks that repeated reads from `pos` return, up to the first empty one. */
  function ReadLoop(lines: seq<Bytes>, pos: nat): seq<Bytes>
    decreases |Flatten(lines)| - pos
  {
    var chunk := ReadChunk(lines, pos);
    if chunk == [] || |Flatten(lines)| <= pos then []
    else [chunk] + ReadLoop(lines, pos + |chunk|)
  }

  /** Reading to end of file from any position delivers the contents from
      there, once and in order, one line boundary per read. */
  lemma {:induction false} ReadLoopExact(lines: seq<Bytes>, pos: nat, k: nat)
    requires AllLines(lines)
    requires k <= |lines| && Before(lines, k) <= pos
    ensures Flatten(ReadLoop(lines, pos)) == Drop(Flatten(lines), pos)
    ensures |ReadLoop(lines, pos)| <= |lines| - k
    decreases |Flatten(lines)| - pos
  {
    hide ReadChunk, IsLine, Before, Flatten;
    ReadChunkExact(lines, pos);
    FlattenNone();
    if pos < |Flatten(lines)| {
      var j := LocateLine(lines, pos);
      ReadChunkInLine(lines, pos, j);
      BeforeNext(lines, j);
      if j < k {
        BeforeMonotone(lines, j + 1, k);
      }
      var chunk := ReadChunk(lines, pos);
      ReadLoopExact(lines, pos + |chunk|, j + 1);
      FlattenCons(chunk, ReadLoop(lines, pos + |chunk|));
      DropChunk(Flatten(lines), pos, chunk);
    }
  }

  lemma DropChunk(all: Bytes, pos: nat, chunk: Bytes)
    requires pos + |chunk| <= |all| && all[pos..pos + |chunk|] == chunk
    ensures Drop(all, pos) == chunk + Drop(all, pos + |chunk|)
  {
  }

  /** At most ten non-empty reads replay the device from any position. */
  lemma ReplayInTenReads(history: Bytes, pos: nat)
    ensures Flatten(ReadLoop(Of(history).lines, pos)) == Drop(Contents(Of(history)), pos)
    ensures |ReadLoop(Of(history).lines, pos)| <= CAPACITY
  {
    LineShape(history);
    assert Of(history).lines[..0] == [];
    ReadLoopExact(Of(history).lines, pos, 0);
  }

  // ---------------------------------------------------------------- replay

  /** `x` extends `low` and is a beginning of `high`. */
  predicate Between(low: Bytes, x: Bytes, high: Bytes) {
    low <= x <= high
  }

  /** The state of a replay that began at `start` with `sent` on the wire: the
      position has come to `pos`, `now` has been sent, in `pieces` commands. */
  predicate Replaying(lines: seq<Bytes>, start: nat, sent: Bytes, pos: nat, now: Bytes, pieces: nat) {
    && start <= pos && (pos == start || pos <= |Flatten(lines)|)
    && sent <= now && |sent| + pos == |now| + start
    && now + Flatten(ReadLoop(lines, pos)) == sent + Flatten(ReadLoop(lines, start))
    && pieces + |ReadLoop(lines, pos)| == |ReadLoop(lines, start)|
  }

  /** A finished replay: all of the contents from `start` on has been sent. */
  predicate Replayed(lines: seq<Bytes>, start: nat, sent: Bytes, pos: nat, now: Bytes) {
    && now == sent + Drop(Flatten(lines), start)
    && pos == start + |Drop(Flatten(lines), start)|
    && (pos != start ==> start <= |Flatten(lines)|)
  }

  /** Relaying one more command keeps the replay going. */
  lemma ReplayStep(lines: seq<Bytes>, start: nat, sent: Bytes, pos: nat, now: Bytes, pieces: nat,
                   newPos: nat, newNow: Bytes)
    requires AllLines(lines) && Replaying(lines, start, sent, pos, now, pieces)
    requires newPos == pos + |ReadChunk(lines, pos)| && newPos > pos
    requires newNow == now + ReadChunk(lines, pos)
    ensures Replaying(lines, start, sent, newPos, newNow, pieces + 1)
    ensures |ReadLoop(lines, newPos)| < |ReadLoop(lines, pos)|
  {
    ReadChunkExact(lines, pos);
    var chunk, next := ReadChunk(lines, pos), ReadLoop(lines, newPos);
    assert ReadLoop(lines, pos) == [chunk] + next;
    hide ReadChunk, ReadLoop, IsLine, AllLines, Flatten;
    FlattenCons(chunk, next);
    Assoc(now, chunk, Flatten(next));
  }

  /** If all that is still to be read fits a buffer, so do the next command and
      all that follows it. */
  lemma ReplayFits(lines: seq<Bytes>, pos: nat, newPos: nat, bound: nat)
    requires AllLines(lines) && AllWithin(ReadLoop(lines, pos), bound)
    requires newPos == pos + |ReadChunk(lines, pos)|
    ensures |ReadChunk(lines, pos)| <= bound && AllWithin(ReadLoop(lines, newPos), bound)
  {
    ReadChunkExact(lines, pos);
    if newPos > pos {
      var chunk, next := ReadChunk(lines, pos), ReadLoop(lines, newPos);
      assert ReadLoop(lines, pos) == [chunk] + next;
      hide ReadChunk, ReadLoop, IsLine, AllLines, Flatten;
      forall i | 0 <= i < |next|
        ensures |next[i]| <= bound
      {
        assert next[i] == ReadLoop(lines, pos)[i+1];
      }
      assert ReadLoop(lines, pos)[0] == chunk;
    }
  }

  /** Commands that fit a buffer can be read back through it from anywhere. */
  lemma {:induction false} ReplayWithin(lines: seq<Bytes>, pos: nat, bound: nat)
    requires AllWithin(lines, bound)
    ensures AllWithin(ReadLoop(lines, pos), bound)
    decreases |Flatten(lines)| - pos
  {
    ChunkWithin(lines, pos, bound);
    var chunk := ReadChunk(lines, pos);
    if chunk != [] && pos < |Flatten(lines)| {
      ReplayWithin(lines, pos + |chunk|, bound);
    }
  }

  /** What fits from one position on fits from every later one. */
  lemma {:induction false} ReplayWithinLater(lines: seq<Bytes>, pos: nat, later: nat, bound: nat)
    requires AllLines(lines) && pos <= later && AllWithin(ReadLoop(lines, pos), bound)
    ensures AllWithin(ReadLoop(lines, later), bound)
    decreases |Flatten(lines)| - pos
  {
    hide ReadChunk, Flatten, IsLine, AllLines;
    ReadChunkExact(lines, pos);
    ReadChunkExact(lines, later);
    var next := pos + |ReadChunk(lines, pos)|;
    if pos < |Flatten(lines)| {
      ReplayFits(lines, pos, next, bound);
      if next <= later {
        ReplayWithinLater(lines, next, later, bound);
      } else {
        LaterChunk(lines, pos, later);
      }
    }
  }

  /** A read from later in the same command ends where that command does. */
  lemma LaterChunk(lines: seq<Bytes>, pos: nat, later: nat)
    requires pos <= later < pos + |ReadChunk(lines, pos)|
    ensures later + |ReadChunk(lines, later)| == pos + |ReadChunk(lines, pos)|
  {
    hide ReadChunk, Flatten;
    if pos >= |Flatten(lines)| {
      ReadChunkAtEnd(lines, pos);
    } else {
      var k := LocateLine(lines, pos);
      ReadChunkInLine(lines, pos, k);
      ReadChunkInLine(lines, later, k);
    }
  }

  /** A replay that stopped early: a beginning was sent, and the position is
      past all that was sent, within the contents. */
  predicate CutShort(lines: seq<Bytes>, start: nat, sent: Bytes, pos: nat, now: Bytes) {
    var full := Drop(Flatten(lines), start);
    && Between(sent, now, sent + full)
    && start + |now| - |sent| <= pos <= start + |full|
  }

  /** Whatever part of the next command got out, read or not, the peer has
      received a beginning of the replay. */
  lemma ReplayFailsWithin(lines: seq<Bytes>, start: nat, sent: Bytes, pos: nat, now: Bytes, pieces: nat,
                          newPos: nat, x: Bytes)
    requires AllLines(lines) && Replaying(lines, start, sent, pos, now, pieces)
    requires Between(now, x, now + ReadChunk(lines, pos))
    requires |x| - |now| <= newPos - pos <= |ReadChunk(lines, pos)|
    ensures CutShort(lines, start, sent, newPos, x)
  {
    assert lines[..0] == [];
    ReadLoopExact(lines, start, 0);
    ReadChunkExact(lines, pos);
    var chunk := ReadChunk(lines, pos);
    if chunk != [] {
      ReplayStep(lines, start, sent, pos, now, pieces, pos + |chunk|, now + chunk);
    }
    hide ReadChunk, ReadLoop, Flatten;
  }

  lemma ReplayIsShort(history: Bytes, start: nat, sent: Bytes, pos: nat, now: Bytes, pieces: nat)
    requires Replaying(Of(history).lines, start, sent, pos, now, pieces)
    ensures AllLines(Of(history).lines) && pieces <= CAPACITY
  {
    LineShape(history);
    ReplayInTenReads(history, start);
  }

  /** At end of file everything from the start position has been sent. */
  lemma ReplayEnds(lines: seq<Bytes>, start: nat, sent: Bytes, pos: nat, now: Bytes, pieces: nat)
    requires AllLines(lines) && Replaying(lines, start, sent, pos, now, pieces)
    requires ReadChunk(lines, pos) == []
    ensures Replayed(lines, start, sent, pos, now)
  {
    assert lines[..0] == [];
    ReadLoopExact(lines, start, 0);
    assert now + [] == now;
  }

  // ---------------------------------------------------------------- seek

  datatype Whence = SeekSet | SeekCur | SeekEnd | OtherWhence

  /** The kernel's fixed_size_llseek: the new position and the return value. */
  function FixedSizeLlseek(pos: nat, offset: int, whence: Whence, size: nat): (nat, int) {
    match whence
    case OtherWhence => (pos, -EINVAL)
    case SeekCur => if offset == 0 then (pos, pos) else SetPos(pos, pos + offset, size)
    case SeekSet => SetPos(pos, offset, size)
    case SeekEnd => SetPos(pos, offset + size, size)
  }

  function SetPos(pos: nat, target: int, size: nat): (nat, int) {
    if 0 <= target <= size then (target, target) else (pos, -EINVAL)
  }

  /** Where each kind of seek wants to go. */
  function WantedPosition(pos: nat, offset: int, whence: Whence, size: nat): int
    requires !whence.OtherWhence?
  {
    (if whence.SeekSet? then 0 else if whence.SeekCur? then pos else size) + offset
  }

  /** A seek that is refused moves nothing, any other returns the new position,
      which is the one wanted. It is refused exactly when that is outside the
      contents; only asking for the current position never is. */
  lemma SeekRefusedIff(pos: nat, offset: int, whence: Whence, size: nat)
    ensures var (newPos, ret) := FixedSizeLlseek(pos, offset, whence, size);
            && (ret < 0 ==> ret == -EINVAL && newPos == pos)
            && (ret >= 0 ==> newPos == ret)
            && (whence.OtherWhence? ==> ret < 0)
            && (!whence.OtherWhence? ==>
                  var wanted := WantedPosition(pos, offset, whence, size);
                  && (ret >= 0 ==> newPos == wanted)
                  && (ret < 0 <==> !(0 <= wanted <= size) && !(whence.SeekCur? && offset == 0)))
  {
  }

  /** After a seek to `k` before the end, exactly the last `k` bytes are left to
      read; a seek to the end goes to the first position where a read returns
      nothing. */
  lemma SeekEndLeaves(lines: seq<Bytes>, pos: nat, k: int)
    requires AllLines(lines) && 0 <= k <= |Flatten(lines)|
    ensures var (newPos, ret) := FixedSizeLlseek(pos, -k, SeekEnd, |Flatten(lines)|);
            && ret == newPos <= |Flatten(lines)|
            && |Flatten(ReadLoop(lines, newPos))| == k
            && Flatten(lines) == Flatten(lines)[..newPos] + Flatten(ReadLoop(lines, newPos))
            && (k == 0 ==> ReadChunk(lines, newPos) == [] && forall p: nat :: p < newPos ==> ReadChunk(lines, p) != [])
  {
    hide Flatten, ReadLoop, ReadChunk, AllLines;
    var newPos := |Flatten(lines)| - k;
    NothingBefore(lines);
    ReadLoopExact(lines, newPos, 0);
    ReadChunkExact(lines, newPos);
    forall p: nat | p < newPos
      ensures ReadChunk(lines, p) != []
    {
      ReadChunkExact(lines, p);
    }
  }

  /** Two relative seeks within the contents move by their sum. */
  lemma SeekCurAdds(pos: nat, a: int, b: int, size: nat)
    requires 0 <= pos + a <= size && 0 <= pos + a + b <= size
    ensures var between := FixedSizeLlseek(pos, a, SeekCur, size).0;
            && between == pos + a
            && FixedSizeLlseek(between, b, SeekCur, size) == (pos + a + b, pos + a + b)
  {
  }

  /** The position an AESDCHAR_IOCSEEKTO request asks for, when it is in range:
      byte `offset` after the start of command `cmd`, counting commands that
      are not stored as empty. Command 9 always asks for 0. */
  function IoctlTarget(lines: seq<Bytes>, cmd: nat, offset: nat): nat {
    if cmd == CAPACITY - 1 then 0
    else Before(lines, if cmd <= |lines| then cmd else |lines|) + offset
  }

  /** Where a seek request leaves the position. */
  function SeekTo(lines: seq<Bytes>, pos: nat, cmd: nat, offset: nat): nat {
    if cmd >= CAPACITY || IoctlTarget(lines, cmd, offset) > |Flatten(lines)| then pos
    else IoctlTarget(lines, cmd, offset)
  }

  /** A request is refused: there is no such command number, or what it asks for
      is outside the contents. */
  predicate SeekRefused(lines: seq<Bytes>, cmd: nat, offset: nat) {
    || cmd >= CAPACITY
    || (cmd < CAPACITY - 1 && cmd < |lines| && Before(lines, cmd) + offset > |Flatten(lines)|)
    || (|lines| <= cmd < CAPACITY - 1 && offset > 0)
  }

  /** In terms of what the request asks for. */
  lemma RefusedIff(lines: seq<Bytes>, cmd: nat, offset: nat)
    ensures SeekRefused(lines, cmd, offset) <==> cmd >= CAPACITY || IoctlTarget(lines, cmd, offset) > |Flatten(lines)|
    ensures cmd < |lines| && cmd < CAPACITY - 1 ==> IoctlTarget(lines, cmd, offset) == Before(lines, cmd) + offset
  {
    assert lines[..|lines|] == lines;
  }

  /** What a seek request does, whatever it asks for: for a stored command below
      9 and any offset, also one past its end, it goes that far behind the start
      of the command if that is within the contents, and moves nothing otherwise;
      for one that is not stored it goes to the end, or nowhere. A request that is
      refused moves nothing. */
  lemma SeekEffect(lines: seq<Bytes>, pos: nat, cmd: nat, offset: nat)
    ensures cmd < CAPACITY - 1 && cmd < |lines| ==>
              SeekTo(lines, pos, cmd, offset)
              == if Before(lines, cmd) + offset <= |Flatten(lines)| then Before(lines, cmd) + offset else pos
    ensures |lines| <= cmd < CAPACITY - 1 ==>
              SeekTo(lines, pos, cmd, offset) == if offset == 0 then |Flatten(lines)| else pos
    ensures cmd == CAPACITY - 1 ==> SeekTo(lines, pos, cmd, offset) == 0
    ensures cmd >= CAPACITY || SeekRefused(lines, cmd, offset) ==> SeekTo(lines, pos, cmd, offset) == pos
  {
    if |lines| <= cmd < CAPACITY - 1 {
      SeekPastStored(lines, pos, cmd, offset);
    }
  }

  /** Seek to an offset inside a stored command, then read: exactly the rest of
      that command comes back and the position is the start of the next one.
      This holds for every stored command except number 9. */
  lemma SeekThenRead(lines: seq<Bytes>, pos: nat, cmd: nat, offset: nat)
    requires cmd < |lines| <= CAPACITY && cmd != CAPACITY - 1
    requires offset < |lines[cmd]|
    ensures var p := SeekTo(lines, pos, cmd, offset);
            && p == Before(lines, cmd) + offset
            && ReadChunk(lines, p) == lines[cmd][offset..]
            && p + |ReadChunk(lines, p)| == Before(lines, cmd + 1)
  {
    hide Before, Flatten, ReadChunk;
    BeforeNext(lines, cmd);
    BeforeMonotone(lines, cmd + 1, |lines|);
    ReadChunkInLine(lines, Before(lines, cmd) + offset, cmd);
  }

  /** A seek to a byte of a stored command lands on that byte exactly when the
      command is not number 9; a seek to command 9 goes to the very start. */
  lemma SeekLandsIff(lines: seq<Bytes>, pos: nat, cmd: nat, offset: nat)
    requires AllLines(lines)
    requires cmd < |lines| <= CAPACITY && offset < |lines[cmd]|
    ensures SeekTo(lines, pos, cmd, offset) == Before(lines, cmd) + offset <==> cmd != CAPACITY - 1
    ensures cmd == CAPACITY - 1 ==> SeekTo(lines, pos, cmd, offset) == 0
  {
    if cmd == CAPACITY - 1 {
      BeforeNext(lines, 0);
      BeforeMonotone(lines, 1, cmd);
      assert IsLine(lines[0]);
    } else {
      SeekThenRead(lines, pos, cmd, offset);
    }
  }

  /** Past the stored commands a request counts from the end of the contents. */
  lemma SeekPastStored(lines: seq<Bytes>, pos: nat, cmd: nat, offset: nat)
    requires |lines| <= cmd < CAPACITY - 1
    ensures SeekTo(lines, pos, cmd, offset) == if offset == 0 then |Flatten(lines)| else pos
  {
    assert lines[..|lines|] == lines;
  }

  // ---------------------------------------------------------------- seeking from a stale slot

  /** The slot of the oldest command after a write, when it was `out` before. */
  function SlotAfter(log: Log, out: nat, buf: Bytes, faults: WriteFaults): nat {
    if Takes(faults) && EndsCommand(buf, Accepted(buf)) && |log.lines| == CAPACITY then (out + 1) % CAPACITY else out
  }

  /** How many slots the oldest command, now in slot `out`, is past `slot`. */
  function Lag(slot: nat, out: nat): nat
    requires slot < CAPACITY && out < CAPACITY
  {
    if slot <= out then out - slot else out + CAPACITY - slot
  }

  /** The command that step `j` of a walk meets which starts `lag` slots before
      the oldest one: the newest `lag` commands come first. */
  function Rank(lag: nat, j: nat): nat
    requires lag < CAPACITY && j < CAPACITY
  {
    if j < lag then CAPACITY - lag + j else j - lag
  }

  /** The length of `n` commands so met; slots without a command count 0. */
  function WalkSum(lines: seq<Bytes>, lag: nat, n: nat): nat
    requires lag < CAPACITY && n <= CAPACITY
  {
    if n == 0 then 0
    else
      var rank := Rank(lag, n - 1);
      WalkSum(lines, lag, n - 1) + if rank < |lines| then |lines[rank]| else 0
  }

  /** What aesd_ioctl asks for when the slot it read lags behind. */
  function StaleTarget(lines: seq<Bytes>, lag: nat, cmd: nat, offset: nat): nat
    requires lag < CAPACITY && cmd < CAPACITY
  {
    if cmd == CAPACITY - 1 then 0 else WalkSum(lines, lag, cmd) + offset
  }

  lemma {:induction false} WalkSumFresh(lines: seq<Bytes>, n: nat)
    requires n <= CAPACITY && |lines| <= CAPACITY
    ensures WalkSum(lines, 0, n) == Before(lines, if n <= |lines| then n else |lines|)
  {
    if n == 0 {
      assert lines[..0] == [];
    } else {
      WalkSumFresh(lines, n - 1);
      if n <= |lines| {
        BeforeNext(lines, n - 1);
      }
    }
  }

  lemma {:induction false} WalkSumStale(lines: seq<Bytes>, lag: nat, n: nat)
    requires 0 < lag < CAPACITY && n <= CAPACITY && |lines| == CAPACITY
    ensures WalkSum(lines, lag, n)
         == if n <= lag then Before(lines, CAPACITY - lag + n) - Before(lines, CAPACITY - lag)
            else Before(lines, CAPACITY) - Before(lines, CAPACITY - lag) + Before(lines, n - lag)
  {
    hide Before;
    if n > 0 {
      WalkSumStale(lines, lag, n - 1);
      BeforeNext(lines, Rank(lag, n - 1));
      if n == lag + 1 {
        NothingBefore(lines);
      }
    }
  }

  lemma NothingBefore(lines: seq<Bytes>)
    ensures Before(lines, 0) == 0
  {
    assert lines[..0] == [];
  }

  /** The commands that a walk to `cmd` meets too early, the first of the newest
      `lag`, have the size of those before `cmd` that it does not get to. */
  predicate SkipsWhatItMeets(lines: seq<Bytes>, lag: nat, cmd: nat) {
    && lag <= CAPACITY == |lines| && cmd <= CAPACITY
    && var m := if cmd < lag then cmd else lag;
       Before(lines, CAPACITY - lag + m) - Before(lines, CAPACITY - lag) == Before(lines, cmd) - Before(lines, cmd - m)
  }

  /** A request for a command below 9 that starts from a slot which lags behind
      is right if and only if that is so. After a single eviction: if and only if
      the newest command is as long as number cmd - 1. */
  lemma StaleTargetIff(lines: seq<Bytes>, lag: nat, cmd: nat, offset: nat)
    requires lag < CAPACITY && cmd < CAPACITY - 1 && |lines| <= CAPACITY
    requires lag > 0 ==> |lines| == CAPACITY
    ensures StaleTarget(lines, 0, cmd, offset) == IoctlTarget(lines, cmd, offset)
    ensures lag > 0 ==>
              (StaleTarget(lines, lag, cmd, offset) == IoctlTarget(lines, cmd, offset)
               <==> SkipsWhatItMeets(lines, lag, cmd))
    ensures lag == 1 && cmd > 0 ==>
              (StaleTarget(lines, lag, cmd, offset) == IoctlTarget(lines, cmd, offset)
               <==> |lines[CAPACITY - 1]| == |lines[cmd - 1]|)
  {
    hide Before;
    WalkSumFresh(lines, cmd);
    if lag > 0 {
      WalkSumStale(lines, lag, cmd);
      NothingBefore(lines);
    }
    if lag == 1 && cmd > 0 {
      BeforeNext(lines, CAPACITY - 1);
      BeforeNext(lines, cmd - 1);
    }
  }

  lemma LagCounts(earlier: nat, now: nat)
    requires earlier <= now
    ensures OldestSlot(earlier) < CAPACITY && OldestSlot(now) < CAPACITY
    ensures Lag(OldestSlot(earlier), OldestSlot(now)) == (Evicted(now) - Evicted(earlier)) % CAPACITY
  {
    hide Evicted, OldestSlot, Lag;
    OldestIsRemainder(earlier);
    OldestIsRemainder(now);
    LagOfRemainders(Evicted(earlier), Evicted(now));
  }

  lemma OldestIsRemainder(count: nat)
    ensures OldestSlot(count) == Evicted(count) % CAPACITY
  {
  }

  lemma LagOfRemainders(a: nat, b: nat)
    ensures Lag(a % CAPACITY, b % CAPACITY) == (b - a) % CAPACITY
  {
    var p, q := a / CAPACITY, b / CAPACITY;
    var o, r := a % CAPACITY, b % CAPACITY;
    assert b - a == CAPACITY * (q - p) + (r - o);
    Remainder(if o <= r then q - p else q - p - 1, Lag(o, r));
  }

  lemma Remainder(q: int, r: nat)
    requires r < CAPACITY
    ensures (CAPACITY * q + r) % CAPACITY == r
  {
  }

  /** If one commit to a full device comes between reading the slot and taking
      the semaphore, the request is right exactly when the new command is as long
      as the one that was asked for before it came. */
  lemma OneCommitBetween(lines: seq<Bytes>, command: Bytes, slot: nat, cmd: nat, offset: nat)
    requires |lines| == CAPACITY && slot < CAPACITY && 0 < cmd < CAPACITY - 1
    ensures var now := LastTen(lines + [command]);
            StaleTarget(now, Lag(slot, (slot + 1) % CAPACITY), cmd, offset) == IoctlTarget(now, cmd, offset)
            <==> |command| == |lines[cmd]|
  {
    hide StaleTarget, IoctlTarget;
    StaleTargetIff(LastTen(lines + [command]), 1, cmd, offset);
  }

  // ---------------------------------------------------------------- seeking to command 9

  /** A seek to command 9 goes to the very start, whatever is stored and whatever
      the offset. */
  lemma SeekNineGoesToStart(lines: seq<Bytes>, pos: nat, offset: nat)
    ensures SeekTo(lines, pos, CAPACITY - 1, offset) == 0
  {
  }

  /** It does go wrong: any ten commands fill a fresh device as they are, and a
      seek to a byte of the last one then lands on the first byte of all. */
  lemma SeekNineMisses(commands: seq<Bytes>, pos: nat, offset: nat)
    requires AllLines(commands) && |commands| == CAPACITY && offset < |commands[CAPACITY - 1]|
    ensures var lines := Of(Flatten(commands)).lines;
            && lines == commands
            && SeekTo(lines, pos, CAPACITY - 1, offset) == 0 < Before(lines, CAPACITY - 1) + offset
  {
    SplitUnique(commands, []);
    assert Flatten(commands) + [] == Flatten(commands);
    SeekLandsIff(commands, pos, CAPACITY - 1, offset);
  }
}
