/** The aesdchar driver (main.c): file operations on the ring, the unfinished
    command and the heap blocks behind them, proved against the byte history. */
module CharDriver {
  import opened ByteStream
  import opened KernelHeap
  import opened CircularBuffer
  import opened CommandLog

  // ---------------------------------------------------------------- ownership

  /** `e` points to a live block that holds exactly `content`. */
  predicate Stored(blocks: map<nat, Bytes>, e: Entry, content: Bytes) {
    && e.buffptr.Block? && e.buffptr.id in blocks
    && blocks[e.buffptr.id] == content && e.size == |content|
  }

  /** The ring entries hold `lines`, the pending entry holds `pending`, no two
      of them share a block, and every live block belongs to one of them. */
  ghost predicate Owns(blocks: map<nat, Bytes>, es: seq<Entry>, lines: seq<Bytes>, temp: Entry, pending: Bytes) {
    && |es| == |lines|
    && (forall i :: 0 <= i < |es| ==> Stored(blocks, es[i], lines[i]))
    && (forall i, j :: 0 <= i < j < |es| ==> es[i].buffptr != es[j].buffptr)
    && (if temp.buffptr.Null? then temp.size == |pending| == 0 else Stored(blocks, temp, pending))
    && (forall i :: 0 <= i < |es| ==> es[i].buffptr != temp.buffptr)
    && (forall id :: id in blocks ==> temp.buffptr == Block(id) || HeldByRing(es, Block(id)))
  }

  ghost predicate HeldByRing(es: seq<Entry>, p: Pointer) {
    exists i :: 0 <= i < |es| && es[i].buffptr == p
  }

  lemma HeldByNothing()
    ensures forall p :: !HeldByRing([], p)
  {
  }

  lemma HeldSnoc(es: seq<Entry>, e: Entry)
    ensures forall p :: HeldByRing(es + [e], p) <==> HeldByRing(es, p) || p == e.buffptr
  {
    forall p
      ensures HeldByRing(es + [e], p) <==> HeldByRing(es, p) || p == e.buffptr
    {
      if HeldByRing(es, p) {
        var i :| 0 <= i < |es| && es[i].buffptr == p;
        assert (es + [e])[i].buffptr == p;
      }
      assert (es + [e])[|es|] == e;
    }
  }

  /** The live blocks are as many as the commands, plus the pending one. */
  lemma {:induction false} LiveCount(blocks: map<nat, Bytes>, es: seq<Entry>, lines: seq<Bytes>,
                                     temp: Entry, pending: Bytes)
    requires Owns(blocks, es, lines, temp, pending)
    ensures |blocks| == |es| + (if temp.buffptr.Block? then 1 else 0)
  {
    if es == [] {
      if temp.buffptr.Block? {
        assert blocks.Keys == {temp.buffptr.id};
      } else {
        assert blocks.Keys == {};
      }
    } else {
      var n, id := |es| - 1, es[|es|-1].buffptr.id;
      assert Stored(blocks, es[n], lines[n]);
      var fewer := blocks - {id};
      forall i | 0 <= i < n
        ensures Stored(fewer, es[..n][i], lines[..n][i])
      {
        assert Stored(blocks, es[i], lines[i]);
      }
      forall x | x in fewer
        ensures temp.buffptr == Block(x) || HeldByRing(es[..n], Block(x))
      {
        if temp.buffptr != Block(x) {
          var i :| 0 <= i < |es| && es[i].buffptr == Block(x);
          assert es[..n][i].buffptr == Block(x);
        }
      }
      LiveCount(fewer, es[..n], lines[..n], temp, pending);
      assert fewer.Keys == blocks.Keys - {id};
    }
  }

  /** Growing the pending entry, in place or by moving it. */
  lemma OwnsGrow(blocks: map<nat, Bytes>, es: seq<Entry>, lines: seq<Bytes>, temp: Entry, pending: Bytes,
                 q: Pointer, grown: Bytes)
    requires Owns(blocks, es, lines, temp, pending)
    requires q.Block? && (q == temp.buffptr || q.id !in blocks)
    ensures Owns((blocks - IdOf(temp.buffptr))[q.id := grown], es, lines, Entry(q, |grown|), grown)
  {
    var after := (blocks - IdOf(temp.buffptr))[q.id := grown];
    forall i | 0 <= i < |es|
      ensures Stored(after, es[i], lines[i]) && es[i].buffptr != q
    {
      assert Stored(blocks, es[i], lines[i]);
    }
  }

  /** Handing the pending entry to the ring and freeing what it evicts: the new
      window is the old one without its first entry, if it had ten. */
  lemma OwnsCommit(blocks: map<nat, Bytes>, es: seq<Entry>, lines: seq<Bytes>, temp: Entry, command: Bytes,
                   evicted: Pointer)
    requires Owns(blocks, es, lines, temp, command) && temp.buffptr.Block? && |es| <= CAPACITY
    requires evicted == if |es| == CAPACITY then es[0].buffptr else Null
    ensures Owns(blocks - IdOf(evicted), LastTen(es + [temp]), LastTen(lines + [command]), ZERO_ENTRY, [])
  {
    var kept := blocks - IdOf(evicted);
    var d := if |es| == CAPACITY then 1 else 0;
    var es', lines' := LastTen(es + [temp]), LastTen(lines + [command]);
    assert es' == es[d..] + [temp] && lines' == lines[d..] + [command];
    hide LastTen;
    forall i | 0 <= i < |es'|
      ensures Stored(kept, es'[i], lines'[i])
    {
      if i < |es'| - 1 {
        assert Stored(blocks, es[i+d], lines[i+d]);
      }
    }
    forall id | id in kept
      ensures HeldByRing(es', Block(id))
    {
      if temp.buffptr == Block(id) {
        assert es'[|es'|-1].buffptr == Block(id);
      } else {
        var i :| 0 <= i < |es| && es[i].buffptr == Block(id);
        assert es'[i-d].buffptr == Block(id);
      }
    }
  }

  /** Starting a new pending entry on a fresh empty block. */
  lemma OwnsStart(blocks: map<nat, Bytes>, es: seq<Entry>, lines: seq<Bytes>, id: nat)
    requires Owns(blocks, es, lines, ZERO_ENTRY, []) && id !in blocks
    ensures Owns(blocks[id := []], es, lines, Entry(Block(id), 0), [])
  {
    OwnsGrow(blocks, es, lines, ZERO_ENTRY, [], Block(id), []);
    assert blocks - IdOf(Null) == blocks;
  }

  /** The sizes the driver adds up are the lengths of the commands. */
  lemma {:induction false} SizesAreLengths(blocks: map<nat, Bytes>, es: seq<Entry>, lines: seq<Bytes>)
    requires |es| == |lines|
    requires forall i :: 0 <= i < |es| ==> Stored(blocks, es[i], lines[i])
    ensures TotalSize(es) == |Flatten(lines)|
    ensures forall k {:trigger Before(lines, k)} :: 0 <= k <= |es| ==> TotalSize(es[..k]) == Before(lines, k)
  {
    if es != [] {
      var n := |es| - 1;
      SizesAreLengths(blocks, es[..n], lines[..n]);
      assert Stored(blocks, es[n], lines[n]);
      forall k | 0 <= k <= |es|
        ensures TotalSize(es[..k]) == Before(lines, k)
      {
        if k <= n {
          assert es[..n][..k] == es[..k] && lines[..n][..k] == lines[..k];
          assert TotalSize(es[..n][..k]) == Before(lines[..n], k);
        } else {
          assert es[..k] == es && lines[..k] == lines;
        }
      }
    } else {
      assert es[..0] == es && lines[..0] == lines;
    }
  }

  // ---------------------------------------------------------------- the device

  /** An open file description: its position is all the driver uses of it. */
  class OpenFile {
    var pos: nat

    constructor ()
      ensures pos == 0
    {
      pos := 0;
    }
  }

  datatype Request = IocSeekTo(cmd: nat, offset: nat) | OtherRequest

  class Device {
    const ring: Ring
    const heap: Heap
    var tempEntry: Entry
    var semaphore: nat
    ghost var history: Bytes   // every byte accepted so far
    ghost var acquired: nat    // how often the semaphore has been taken

    /** The device holds what its history says, and nobody is inside a
        semaphore section. */
    ghost predicate Valid()
      reads this, ring, ring.entry, heap
    {
      && semaphore == 1
      && Holds(Of(history).lines, Of(history).pending)
    }

    ghost predicate Holds(lines: seq<Bytes>, pending: Bytes)
      reads this, ring, ring.entry, heap
    {
      && ring.Valid() && heap.Valid()
      && Owns(heap.blocks, ring.Logical(), lines, tempEntry, pending)
    }

    /** The readable part as one byte string. */
    ghost function Text(): Bytes
      reads this
    {
      Contents(Of(history))
    }

    constructor ()
      ensures Valid() && history == []
      ensures fresh(ring) && fresh(ring.entry) && fresh(heap)
    {
      ring := new Ring();
      var h := new Heap();
      var p := h.Kmalloc(0, false);
      heap := h;
      tempEntry := Entry(p, 0);
      semaphore := 1;
      history := [];
    }

    method Down()
      requires semaphore > 0
      modifies this`semaphore, this`acquired
      ensures semaphore == old(semaphore) - 1 && acquired == old(acquired) + 1
    {
      semaphore := semaphore - 1;
      acquired := acquired + 1;
    }

    method Up()
      modifies this`semaphore
      ensures semaphore == old(semaphore) + 1
    {
      semaphore := semaphore + 1;
    }

    /** The newline scan of aesd_write. */
    static method ScanForTerminator(tempBuffer: Bytes) returns (bytesToAdd: nat, foundTerminator: bool)
      ensures bytesToAdd == Accepted(tempBuffer)
      ensures foundTerminator <==> EndsCommand(tempBuffer, Accepted(tempBuffer))
    {
      var index := 0;
      while index < |tempBuffer|
        invariant index <= |tempBuffer|
        invariant NEWLINE !in tempBuffer[..index]
      {
        if tempBuffer[index] == NEWLINE {
          break;
        }
        index := index + 1;
      }
      if index == |tempBuffer| {
        bytesToAdd, foundTerminator := |tempBuffer|, false;
        assert tempBuffer[..index] == tempBuffer;
      } else {
        bytesToAdd, foundTerminator := index + 1, true;
        assert forall i :: 0 <= i < index ==> tempBuffer[i] == tempBuffer[..index][i];
      }
      CutIsAccepted(tempBuffer, bytesToAdd);
    }

    /** aesd_write: at most one command per call; the position of the open file
        is not touched. */
    method Write(buf: Bytes, faults: WriteFaults, moves: bool) returns (retval: int)
      requires Valid()
      modifies this, ring, ring.entry, heap
      ensures Valid()
      ensures history == old(history) + Taken(buf, faults)
      ensures retval == WriteResult(buf, faults)
      ensures retval >= 0 ==> IsCut(buf, retval) && history == old(history) + buf[..retval]
      ensures retval < 0 ==> retval == if faults.copy && !faults.scratch then -EFAULT else -ENOMEM
      ensures retval < 0 <==> faults.scratch || faults.copy || faults.grow || (faults.reset && NEWLINE in buf)
      ensures acquired == old(acquired) + if faults.scratch || faults.copy then 0 else 1
      ensures ring.outOffs == SlotAfter(Of(old(history)), old(ring.outOffs), buf, faults)
    {
      hide Lines, Tail, LastTen, Accepted, EndsCommand, Ring.Valid, Ring.Logical, Heap.Valid, Owns, Of;
      hide IsCut;
      FaultyWriteExtends(history, buf, faults);
      ResultIsTaken(buf, faults);
      if faults.scratch {
        return -ENOMEM;
      }
      var tempBuffer := buf;
      if faults.copy {
        return -EFAULT;
      }
      var bytesToAdd, foundTerminator := ScanForTerminator(tempBuffer);
      AcceptedShape(buf);
      Down();
      retval := AddPiece(tempBuffer[..bytesToAdd], foundTerminator, faults, moves, Of(history));
      history := history + Taken(buf, faults);
      Up();
    }

    /** What aesd_write does while it holds the semaphore. */
    method AddPiece(piece: Bytes, foundTerminator: bool, faults: WriteFaults, moves: bool, ghost log: Log)
      returns (retval: int)
      requires Holds(log.lines, log.pending) && (foundTerminator ==> piece != [])
      requires semaphore == 0
      modifies this`tempEntry, ring, ring.entry, heap
      ensures Holds(if foundTerminator && !faults.grow then LastTen(log.lines + [log.pending + piece]) else log.lines,
                    if faults.grow then log.pending else if foundTerminator then [] else log.pending + piece)
      ensures retval == if faults.grow || (foundTerminator && faults.reset) then -ENOMEM else |piece|
      ensures ring.outOffs == if foundTerminator && !faults.grow && |log.lines| == CAPACITY
                              then (old(ring.outOffs) + 1) % CAPACITY else old(ring.outOffs)
    {
      hide LastTen, Ring.Valid, Ring.Logical, Heap.Valid;
      assert tempEntry.size == |log.pending|;
      assert tempEntry.buffptr.Block? ==> Stored(heap.blocks, tempEntry, log.pending);
      hide Owns;
      var newTempBuffer := heap.Krealloc(tempEntry.buffptr, tempEntry.size + |piece|, faults.grow, moves);
      if newTempBuffer.Null? {
        return -ENOMEM;
      }
      AppendPending(newTempBuffer, piece, log.lines, log.pending, old(heap.blocks));
      if foundTerminator {
        CommitPending(faults.reset, log.lines, log.pending + piece);
        if tempEntry.buffptr.Null? {
          return -ENOMEM;
        }
      }
      retval := |piece|;
    }

    /** What the ring's sizes say about the text. */
    lemma Sizes()
      requires Valid()
      ensures |ring.Logical()| == |Of(history).lines|
      ensures TotalSize(ring.Logical()) == |Text()|
      ensures forall k {:trigger Before(Of(history).lines, k)} :: 0 <= k <= |Of(history).lines| ==>
                TotalSize(ring.Logical()[..k]) == Before(Of(history).lines, k)
    {
      hide Lines, Tail, LastTen, Ring.Valid, Ring.Logical, Heap.Valid;
      SizesAreLengths(heap.blocks, ring.Logical(), Of(history).lines);
    }

    lemma StoredAt(k: nat)
      requires Holds(Of(history).lines, Of(history).pending) && k < |ring.Logical()|
      ensures k < |Of(history).lines| && Stored(heap.blocks, ring.Logical()[k], Of(history).lines[k])
    {
      hide Lines, Tail, LastTen, Ring.Valid, Ring.Logical, Heap.Valid;
    }

    /** The copy of a write's piece behind the unfinished command, once the
        block has been resized to `q`. */
    method AppendPending(q: Pointer, piece: Bytes, ghost lines: seq<Bytes>, ghost pending: Bytes,
                         ghost blocks: map<nat, Bytes>)
      requires ring.Valid() && heap.Valid()
      requires Owns(blocks, ring.Logical(), lines, tempEntry, pending)
      requires q.Block? && (q == tempEntry.buffptr || q.id !in blocks)
      requires q.id in heap.blocks && |heap.blocks[q.id]| == tempEntry.size + |piece|
      requires pending <= heap.blocks[q.id]
      requires heap.blocks == (blocks - IdOf(tempEntry.buffptr))[q.id := heap.blocks[q.id]]
      modifies this`tempEntry, heap
      ensures Holds(lines, pending + piece) && tempEntry.buffptr == q
    {
      hide Ring.Valid, Ring.Logical, Heap.Valid;
      assert tempEntry.size == |pending|;
      hide Owns;
      OwnsGrow(blocks, ring.Logical(), lines, tempEntry, pending, q, pending + piece);
      tempEntry := tempEntry.(buffptr := q);
      heap.Memcpy(q, tempEntry.size, piece);
      tempEntry := tempEntry.(size := tempEntry.size + |piece|);
      assert heap.blocks[q.id] == pending + piece;
      assert heap.blocks == (blocks - IdOf(old(tempEntry).buffptr))[q.id := pending + piece];
    }

    /** Moves the finished command into the ring, frees what it overwrote, and
        starts an empty unfinished command. */
    method CommitPending(resetFails: bool, ghost lines: seq<Bytes>, ghost command: Bytes)
      requires Holds(lines, command) && tempEntry.buffptr.Block?
      modifies this`tempEntry, ring, ring.entry, heap
      ensures Holds(LastTen(lines + [command]), [])
      ensures tempEntry.buffptr.Null? <==> resetFails
      ensures ring.outOffs == if |lines| == CAPACITY then (old(ring.outOffs) + 1) % CAPACITY else old(ring.outOffs)
    {
      hide Ring.Valid, Ring.Logical, Heap.Valid, LastTen, Owns;
      ring.SlotAt(0);
      ghost var evicted := CommitIsOwned(lines, command);
      ghost var kept := heap.blocks - IdOf(evicted);
      ghost var lines' := LastTen(lines + [command]);
      var overwritten := ring.AddEntry(tempEntry);
      if overwritten.Block? {
        heap.Kfree(overwritten);
      }
      assert heap.blocks == kept && Owns(kept, ring.Logical(), lines', ZERO_ENTRY, []);
      StartPending(resetFails, lines');
    }

    /** The empty command that follows a commit. */
    method StartPending(resetFails: bool, ghost lines: seq<Bytes>)
      requires ring.Valid() && heap.Valid()
      requires Owns(heap.blocks, ring.Logical(), lines, ZERO_ENTRY, [])
      modifies this`tempEntry, heap
      ensures Holds(lines, []) && (tempEntry.buffptr.Null? <==> resetFails)
    {
      hide Ring.Valid, Ring.Logical, Heap.Valid, Owns;
      ghost var blocks, es := heap.blocks, ring.Logical();
      tempEntry := tempEntry.(size := 0);
      var empty := heap.Kmalloc(0, resetFails);
      tempEntry := tempEntry.(buffptr := empty);
      if empty.Block? {
        OwnsStart(blocks, es, lines, empty.id);
        assert heap.blocks[empty.id] == [];
      }
    }

    /** OwnsCommit for the state of this device. */
    lemma CommitIsOwned(lines: seq<Bytes>, command: Bytes) returns (evicted: Pointer)
      requires Holds(lines, command) && tempEntry.buffptr.Block?
      ensures |ring.Logical()| == |lines|
      ensures evicted == if |ring.Logical()| == CAPACITY then ring.Logical()[0].buffptr else Null
      ensures evicted.Block? ==> evicted.id in heap.blocks
      ensures Owns(heap.blocks - IdOf(evicted), LastTen(ring.Logical() + [tempEntry]),
                   LastTen(lines + [command]), ZERO_ENTRY, [])
    {
      ring.LogicalIsLastTen();
      assert |ring.Logical()| <= CAPACITY;
      hide Ring.Valid, Ring.Logical, Heap.Valid, LastTen;
      var es := ring.Logical();
      evicted := if |es| == CAPACITY then es[0].buffptr else Null;
      assert |es| == CAPACITY ==> Stored(heap.blocks, es[0], lines[0]);
      OwnsCommit(heap.blocks, es, lines, tempEntry, command, evicted);
    }

    /** aesd_read: the rest of the command at the position, 0 at end of file.
        `buf` is the memory from the caller's buffer on, of which `count` bytes
        are the caller's. They are not looked at: the whole rest is copied, and
        only what lies behind it is left as it was. */
    method Read(file: OpenFile, buf: array<char>, count: nat, copyFails: bool) returns (retval: int)
      requires Valid() && count <= buf.Length
      requires |ReadChunk(Of(history).lines, file.pos)| <= buf.Length
      modifies this`semaphore, this`acquired, file, buf
      ensures Valid()
      ensures var chunk := ReadChunk(Of(history).lines, old(file.pos));
              if chunk == [] then
                retval == 0 && file.pos == old(file.pos) && buf[..] == old(buf[..])
              else if copyFails then
                retval == -EFAULT && file.pos == old(file.pos)
              else
                && 0 < retval == |chunk| <= buf.Length && buf[..retval] == chunk
                && buf[retval..] == old(buf[..])[retval..]
                && file.pos == old(file.pos) + retval
      ensures acquired == old(acquired) + 1
    {
      hide Lines, Tail, LastTen, Flatten, TotalSize, Ring.Valid, Ring.Logical, Heap.Valid, Owns, ReadChunk;
      ghost var lines := Of(history).lines;
      Sizes();
      retval := 0;
      Down();
      var selectedEntry, returnedByteOffset, k := ring.FindEntryOffsetForFpos(file.pos, -1);
      if returnedByteOffset != -1 {
        var e := ring.entry[selectedEntry];
        StoredAt(k);
        ReadChunkInLine(lines, file.pos, k);
        var bytesLeftInEntry := e.size - returnedByteOffset;
        if copyFails {
          retval := -EFAULT;
        } else {
          var source := heap.blocks[e.buffptr.id];
          forall i | 0 <= i < bytesLeftInEntry {
            buf[i] := source[returnedByteOffset + i];
          }
          assert buf[..bytesLeftInEntry] == lines[k][returnedByteOffset..];
          assert buf[bytesLeftInEntry..] == old(buf[..])[bytesLeftInEntry..];
          file.pos := file.pos + bytesLeftInEntry;
          retval := bytesLeftInEntry;
        }
      } else {
        ReadChunkAtEnd(lines, file.pos);
      }
      Up();
    }

    /** aesd_llseek: any whence, against the summed length of all slots. */
    method Llseek(file: OpenFile, offset: int, whence: Whence) returns (returnedOffset: int)
      requires Valid()
      modifies this`semaphore, this`acquired, file
      ensures Valid()
      ensures (file.pos, returnedOffset) == FixedSizeLlseek(old(file.pos), offset, whence, |Text()|)
      ensures returnedOffset < 0 ==> returnedOffset == -EINVAL && file.pos == old(file.pos)
      ensures returnedOffset >= 0 ==> file.pos == returnedOffset
      ensures whence.SeekSet? ==>
                && (returnedOffset >= 0 <==> 0 <= offset <= |Text()|)
                && (returnedOffset >= 0 ==> file.pos == offset)
      ensures whence.SeekCur? ==>
                && (returnedOffset >= 0 <==> 0 <= old(file.pos) + offset <= |Text()| || offset == 0)
                && (returnedOffset >= 0 ==> file.pos - old(file.pos) == offset)
      ensures whence.SeekEnd? ==>
                && (returnedOffset >= 0 <==> -|Text()| <= offset <= 0)
                && (returnedOffset >= 0 ==> Text() == Text()[..file.pos] + Drop(Text(), file.pos)
                                            && |Drop(Text(), file.pos)| == -offset)
      ensures whence.OtherWhence? ==> returnedOffset < 0
      ensures acquired == old(acquired) + 1
    {
      hide Lines, Tail, LastTen, Flatten, TotalSize, Ring.Valid, Ring.Logical, Heap.Valid, Owns;
      Sizes();
      Down();
      var bufferLength := ring.SumSlots();
      Up();
      var (pos, ret) := FixedSizeLlseek(file.pos, offset, whence, bufferLength);
      file.pos, returnedOffset := pos, ret;
    }

    /** The walk over the slots from `start` on meets the commands by rank. */
    lemma {:induction false} WalkIsSum(start: nat, n: nat)
      requires Valid() && start < CAPACITY && n <= CAPACITY
      ensures ring.outOffs < CAPACITY == ring.entry.Length
      ensures WalkSize(ring.entry[..], start, n) == WalkSum(Of(history).lines, Lag(start, ring.outOffs), n)
    {
      hide Lines, Tail, LastTen, Ring.Valid, Ring.Logical, Heap.Valid, Owns;
      ring.SlotAt(0);
      if n > 0 {
        WalkIsSum(start, n - 1);
        var rank := Rank(Lag(start, ring.outOffs), n - 1);
        assert Wrap(start + n - 1) == Wrap(ring.outOffs + rank);
        ring.SlotAt(rank);
        Sizes();
        if rank < |ring.Logical()| {
          StoredAt(rank);
        }
      }
    }

    /** The part of aesd_ioctl under the semaphore, for the slot it has read
        before, whether or not that is still the slot of the oldest command. */
    method SumFromSlot(startIndex: nat, cmd: nat, offset: nat) returns (byteCount: nat)
      requires Valid() && startIndex < CAPACITY && cmd < CAPACITY
      modifies this`semaphore, this`acquired
      ensures Valid() && ring.outOffs < CAPACITY
      ensures byteCount == StaleTarget(Of(history).lines, Lag(startIndex, ring.outOffs), cmd, offset)
      ensures acquired == old(acquired) + 1
    {
      hide Lines, Tail, LastTen, Ring.Valid, Ring.Logical, Heap.Valid, Owns, WalkSum;
      WalkIsSum(startIndex, cmd);
      Down();
      byteCount := ring.SumBefore(startIndex, cmd, offset);
      Up();
    }

    /** aesd_ioctl: seeks to a byte of a command, when the caller has the device
        to itself. A request out of range leaves the position alone. */
    method Ioctl(file: OpenFile, request: Request, copyFails: bool) returns (retval: int)
      requires Valid()
      modifies this`semaphore, this`acquired, file
      ensures Valid()
      ensures file.pos == if request.IocSeekTo? && !copyFails
                          then SeekTo(Of(history).lines, old(file.pos), request.cmd, request.offset)
                          else old(file.pos)
      ensures retval == if request.OtherRequest? then -EINVAL
                        else if copyFails then -EFAULT
                        else if request.cmd >= CAPACITY
                                || IoctlTarget(Of(history).lines, request.cmd, request.offset) > |Text()| then -EINVAL
                        else file.pos
      ensures retval < 0 ==> file.pos == old(file.pos)
      ensures retval >= 0 ==> file.pos == retval <= |Text()|
      ensures retval < 0 <==> request.OtherRequest? || copyFails
                              || SeekRefused(Of(history).lines, request.cmd, request.offset)
      ensures retval >= 0 && request.cmd < |Of(history).lines| && request.cmd < CAPACITY - 1 ==>
                retval == Before(Of(history).lines, request.cmd) + request.offset
      ensures acquired == old(acquired)
                          + if request.OtherRequest? || copyFails || request.cmd >= CAPACITY then 0 else 2
    {
      hide Lines, Tail, LastTen, Flatten, TotalSize, Ring.Valid, Ring.Logical, Heap.Valid, Owns;
      hide Before, SeekRefused, Of;
      match request
      case OtherRequest => return -EINVAL;
      case IocSeekTo(writeCmd, writeCmdOffset) =>
        if copyFails {
          return -EFAULT;
        }
        RefusedIff(Of(history).lines, writeCmd, writeCmdOffset);
        if writeCmd >= CAPACITY {
          return -EINVAL;
        }
        ring.SlotAt(0);
        var startIndex := ring.outOffs;
        var byteCount := SumFromSlot(startIndex, writeCmd, writeCmdOffset);
        FreshTarget(writeCmd, writeCmdOffset);
        retval := Llseek(file, byteCount, SeekSet);
    }

    /** From the slot of the oldest command the sum is the one asked for. */
    lemma FreshTarget(cmd: nat, offset: nat)
      requires Valid() && cmd < CAPACITY
      ensures StaleTarget(Of(history).lines, 0, cmd, offset) == IoctlTarget(Of(history).lines, cmd, offset)
    {
      hide Ring.Valid, Ring.Logical, Heap.Valid, Owns;
      if cmd < CAPACITY - 1 {
        StaleTargetIff(Of(history).lines, 0, cmd, offset);
      }
    }

    /** The block of slot `j` is live and no earlier slot has it. */
    lemma SlotIsLive(j: nat, blocks: map<nat, Bytes>)
      requires ring.Valid() && j < CAPACITY
      requires Owns(blocks, ring.Logical(), Of(history).lines, tempEntry, Of(history).pending)
      ensures var p := ring.entry[j].buffptr;
              p.Block? ==> p.id in blocks && !HeldByRing(ring.entry[..j], p)
    {
      assert ring.entry.Length == CAPACITY;
      hide Ring.Valid, Ring.Logical, LastTen, Lines, Tail;
      var p := ring.entry[j].buffptr;
      var rank := ring.SlotRank(j);
      if p.Block? {
        assert Stored(blocks, ring.Logical()[rank], Of(history).lines[rank]);
        forall i | 0 <= i < j
          ensures ring.entry[i].buffptr != p
        {
          var other := ring.SlotRank(i);
        }
      }
    }

    /** The pending block is live and in no slot; every other block is in one. */
    lemma PendingIsLive(blocks: map<nat, Bytes>)
      requires ring.Valid()
      requires Owns(blocks, ring.Logical(), Of(history).lines, tempEntry, Of(history).pending)
      ensures tempEntry.buffptr.Block? ==> tempEntry.buffptr.id in blocks
      ensures tempEntry.buffptr.Block? ==> !HeldByRing(ring.entry[..], tempEntry.buffptr)
      ensures forall id :: id in blocks && tempEntry.buffptr != Block(id) ==> HeldByRing(ring.entry[..], Block(id))
    {
      ring.LogicalIsLastTen();
      hide Ring.Valid, Ring.Logical, LastTen, Lines, Tail;
      forall i | 0 <= i < CAPACITY && tempEntry.buffptr.Block?
        ensures ring.entry[i].buffptr != tempEntry.buffptr
      {
        var rank := ring.SlotRank(i);
      }
      forall id | id in blocks && tempEntry.buffptr != Block(id)
        ensures HeldByRing(ring.entry[..], Block(id))
      {
        var i :| 0 <= i < |ring.Logical()| && ring.Logical()[i].buffptr == Block(id);
        assert ring.entry[..][Wrap(ring.outOffs + i)].buffptr == Block(id);
      }
    }

    /** aesd_cleanup_module, as far as the commands go: every slot and then the
        unfinished command are freed, after which no block is left and every
        block allocated for commands has been freed exactly once. */
    method Cleanup()
      requires Valid()
      modifies heap
      ensures heap.blocks == map[]
      ensures forall id: nat :: heap.frees[id] == if id < heap.next then 1 else 0
    {
      assert ring.Valid() && ring.entry.Length == CAPACITY;
      hide Ring.Valid, Ring.Logical, LastTen, Lines, Tail, Owns, HeldByRing;
      HeldByNothing();
      var index := 0;
      while index < CAPACITY
        invariant index <= CAPACITY && heap.Valid()
        invariant heap.next == old(heap.next)
        invariant forall id :: id in heap.blocks <==>
                    id in old(heap.blocks) && !HeldByRing(ring.entry[..index], Block(id))
      {
        SlotIsLive(index, old(heap.blocks));
        var entry := ring.entry[index];
        heap.Kfree(entry.buffptr);
        assert ring.entry[..index+1] == ring.entry[..index] + [entry];
        HeldSnoc(ring.entry[..index], entry);
        index := index + 1;
      }
      assert ring.entry[..index] == ring.entry[..];
      PendingIsLive(old(heap.blocks));
      heap.Kfree(tempEntry.buffptr);
      assert heap.blocks == map[];
    }
  }
}
