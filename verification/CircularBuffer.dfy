/** The ring of ten entries (aesd-circular-buffer.c), with its two wrapping
    indices and its `full` flag, proved against the sequence of all entries
    ever added. */
module CircularBuffer {
  import opened ByteStream
  import opened KernelHeap

  /** struct aesd_buffer_entry */
  datatype Entry = Entry(buffptr: Pointer, size: nat)

  const ZERO_ENTRY := Entry(Null, 0)

  function TotalSize(es: seq<Entry>): nat {
    if es == [] then 0 else TotalSize(es[..|es|-1]) + es[|es|-1].size
  }

  lemma TotalSizeNext(es: seq<Entry>, k: nat)
    requires k < |es|
    ensures TotalSize(es[..k+1]) == TotalSize(es[..k]) + es[k].size
  {
    assert es[..k+1][..k] == es[..k];
  }

  lemma {:induction false} TotalSizeConcat(a: seq<Entry>, b: seq<Entry>)
    ensures TotalSize(a + b) == TotalSize(a) + TotalSize(b)
  {
    if b == [] {
      assert a + b == a;
    } else {
      assert (a + b)[..|a + b|-1] == a + b[..|b|-1];
      TotalSizeConcat(a, b[..|b|-1]);
    }
  }

  lemma {:induction false} TotalSizePrefix(es: seq<Entry>, j: nat, k: nat)
    requires j <= k <= |es|
    ensures TotalSize(es[..j]) <= TotalSize(es[..k]) <= TotalSize(es)
  {
    assert es[..k] == es[..j] + es[j..k] && es == es[..k] + es[k..];
    TotalSizeConcat(es[..j], es[j..k]);
    TotalSizeConcat(es[..k], es[k..]);
  }

  lemma {:induction false} TotalSizeZero(es: seq<Entry>)
    requires forall i :: 0 <= i < |es| ==> es[i] == ZERO_ENTRY
    ensures TotalSize(es) == 0
  {
    if es != [] {
      TotalSizeZero(es[..|es|-1]);
    }
  }

  /** Size of the first `k` entries, where missing ones count 0. */
  function SizeUpTo(es: seq<Entry>, k: nat): nat {
    TotalSize(es[..if k <= |es| then k else |es|])
  }

  lemma SizeUpToNext(es: seq<Entry>, k: nat)
    ensures SizeUpTo(es, 0) == 0
    ensures SizeUpTo(es, k + 1) == SizeUpTo(es, k) + if k < |es| then es[k].size else 0
  {
    if k < |es| {
      TotalSizeNext(es, k);
    }
  }

  /** Indices that have just stepped past the last slot start over. */
  function Wrap(i: nat): nat
    requires i < 2 * CAPACITY
  {
    if i < CAPACITY then i else i - CAPACITY
  }

  /** The remainder operation every index update goes through. */
  method Modulo(i: nat) returns (r: nat)
    requires i < 2 * CAPACITY
    ensures r == Wrap(i) < CAPACITY
  {
    r := i % CAPACITY;
  }

  /** A walk of at most ten slots from `start` meets slot start + cmd only at
      step cmd, and the slot after it only at step cmd + 1. */
  lemma SlotsDistinct(start: nat, cmd: nat, k: nat)
    requires start < CAPACITY && cmd < CAPACITY - 1 && k <= cmd + 1
    ensures k <= cmd ==> (Wrap(start + k) == Wrap(start + cmd) <==> k == cmd)
    ensures k <= cmd ==> Wrap(Wrap(start + k) + 1) == Wrap(start + k + 1)
    ensures Wrap(start + k) == Wrap(Wrap(start + cmd) + 1) <==> k == cmd + 1
  {
  }

  /** The size of `n` slots met from `start` on, wrapping around. */
  function WalkSize(slots: seq<Entry>, start: nat, n: nat): nat
    requires |slots| == CAPACITY && start < CAPACITY && n <= CAPACITY
  {
    if n == 0 then 0 else WalkSize(slots, start, n - 1) + slots[Wrap(start + n - 1)].size
  }

  /** The wrapping loop of aesd_ioctl over the slots. For the last command number
      the loop guard is false on entry and nothing is added. */
  method SumFrom(entry: array<Entry>, start: nat, cmd: nat, offset: nat) returns (byteCount: nat)
    requires entry.Length == CAPACITY && start < CAPACITY && cmd < CAPACITY
    ensures byteCount == if cmd == CAPACITY - 1 then 0 else WalkSize(entry[..], start, cmd) + offset
  {
    var endIndex := Modulo(start + cmd);
    var stop := Modulo(endIndex + 1);
    byteCount := 0;
    var i := start;
    ghost var k := 0;
    while i != stop
      invariant cmd == CAPACITY - 1 ==> i == stop && byteCount == 0
      invariant cmd < CAPACITY - 1 ==>
                  && k <= cmd + 1 && i == Wrap(start + k)
                  && byteCount == if k <= cmd then WalkSize(entry[..], start, k)
                                  else WalkSize(entry[..], start, cmd) + offset
      decreases cmd + 1 - k
    {
      SlotsDistinct(start, cmd, k);
      if i == endIndex {
        byteCount := byteCount + offset;
      } else {
        byteCount := byteCount + entry[i].size;
      }
      i := Modulo(i + 1);
      k := k + 1;
    }
    if cmd < CAPACITY - 1 {
      SlotsDistinct(start, cmd, k);
    }
  }

  /** The lookup loop over the slots; `es` are the entries it meets in order. */
  method FindFrom(entry: array<Entry>, inOffs: nat, outOffs: nat, full: bool,
                  charOffset: nat, given: int, ghost es: seq<Entry>)
    returns (slot: int, byteOffset: int, ghost k: nat)
    requires entry.Length == CAPACITY && inOffs < CAPACITY && outOffs < CAPACITY
    requires if full then |es| == CAPACITY else outOffs == 0 && inOffs == |es|
    requires forall j :: 0 <= j < |es| ==> entry[Wrap(outOffs + j)] == es[j]
    ensures slot == -1 <==> TotalSize(es) <= charOffset
    ensures slot == -1 ==> byteOffset == given
    ensures slot != -1 ==>
              && k < |es| && slot == Wrap(outOffs + k)
              && 0 <= byteOffset < es[k].size
              && TotalSize(es[..k]) + byteOffset == charOffset
  {
    slot, byteOffset, k := -1, given, 0;
    var charDifference: nat := charOffset;
    var i := 0;
    while i < CAPACITY
      invariant i <= CAPACITY && i <= |es|
      invariant TotalSize(es[..i]) + charDifference == charOffset
      invariant slot == -1 && byteOffset == given
    {
      var bufferIndex := Modulo(outOffs + i);
      if bufferIndex == inOffs && !full {
        assert es[..i] == es;
        return;
      }
      TotalSizeNext(es, i);
      if charDifference >= entry[bufferIndex].size {
        charDifference := charDifference - entry[bufferIndex].size;
      } else {
        TotalSizePrefix(es, i + 1, |es|);
        slot, byteOffset, k := bufferIndex, charDifference, i;
        return;
      }
      i := i + 1;
    }
    assert es[..i] == es;
  }

  /** Overwriting the oldest of ten rotated entries appends to their sequence. */
  lemma OverwriteRotated(p: seq<Entry>, out: nat, e: Entry)
    requires |p| == CAPACITY && out < CAPACITY
    ensures var q, o := p[out := e], Wrap(out + 1);
            q[o..] + q[..o] == LastTen(p[out..] + p[..out] + [e])
  {
  }

  class Ring {
    const entry: array<Entry>
    var inOffs: nat
    var outOffs: nat
    var full: bool
    ghost var added: seq<Entry>   // every entry ever added, oldest first

    ghost predicate Valid()
      reads this, entry
    {
      && entry.Length == CAPACITY
      && inOffs < CAPACITY && outOffs < CAPACITY
      && (if full then
            inOffs == outOffs == OldestSlot(|added|) && |added| >= CAPACITY
          else
            outOffs == 0 && inOffs == |added| < CAPACITY
            && forall j :: inOffs <= j < CAPACITY ==> entry[j] == ZERO_ENTRY)
      && Slots() == LastTen(added)
    }

    /** The held entries as read from the physical slots: from `outOffs` up to
        `inOffs`, wrapping around when the ring is full. */
    ghost function Slots(): seq<Entry>
      requires entry.Length == CAPACITY && inOffs < CAPACITY && outOffs < CAPACITY
      requires !full ==> outOffs <= inOffs
      reads this, entry
    {
      if full then entry[outOffs..] + entry[..outOffs] else entry[outOffs..inOffs]
    }

    ghost function Logical(): seq<Entry>
      requires Valid()
      reads this, entry
    {
      Slots()
    }

    /** Whatever was added, in however many rounds, the slots hold the last ten
        entries in order, and slot (outOffs + k) mod 10 is logical entry k. */
    lemma LogicalIsLastTen()
      requires Valid()
      ensures Logical() == LastTen(added)
      ensures full <==> |Logical()| == CAPACITY
      ensures outOffs == OldestSlot(|added|)
      ensures !full ==> outOffs == 0 && inOffs == |Logical()|
      ensures forall k :: 0 <= k < |Logical()| ==> entry[Wrap(outOffs + k)] == Logical()[k]
    {
    }

    /** Every physical slot is either unused or one logical entry, and different
        slots are different logical entries. */
    lemma SlotRank(j: nat) returns (rank: nat)
      requires Valid() && j < CAPACITY
      ensures rank == (if j >= outOffs then j - outOffs else j + CAPACITY - outOffs)
      ensures if rank < |Logical()| then entry[j] == Logical()[rank] else entry[j] == ZERO_ENTRY
    {
      LogicalIsLastTen();
      rank := if j >= outOffs then j - outOffs else j + CAPACITY - outOffs;
      assert Wrap(outOffs + rank) == j;
    }

    constructor ()
      ensures Valid() && fresh(entry) && added == []
    {
      entry := new Entry[CAPACITY](_ => ZERO_ENTRY);
      inOffs, outOffs, full := 0, 0, false;
      added := [];
    }

    /** aesd_circular_buffer_add_entry: overwrites the oldest entry when full
        and returns its pointer, so that the caller may free it; the slot of the
        oldest entry then moves on by one. */
    method AddEntry(e: Entry) returns (evicted: Pointer)
      requires Valid()
      modifies this, entry
      ensures Valid() && added == old(added) + [e]
      ensures Logical() == LastTen(old(Logical()) + [e])
      ensures evicted == if |old(Logical())| == CAPACITY then old(Logical())[0].buffptr else Null
      ensures outOffs == if |old(Logical())| == CAPACITY then Wrap(old(outOffs) + 1) else old(outOffs)
    {
      hide OldestSlot, LastTen;
      LogicalIsLastTen();
      LastTenSnoc(added, e);
      NextOldestSlot(|added|);
      ghost var was := entry[..];
      evicted := Null;
      if full {
        evicted := entry[inOffs].buffptr;
      }
      entry[inOffs] := e;
      assert entry[..] == was[inOffs := e];
      inOffs := Modulo(inOffs + 1);
      if full {
        outOffs := Modulo(outOffs + 1);
      }
      if outOffs == inOffs {
        full := true;
      }
      added := added + [e];
      AddedSlots(was, old(inOffs), old(full), e);
    }

    /** After the assignments of AddEntry the slots hold the old ones and `e`. */
    lemma AddedSlots(was: seq<Entry>, at: nat, wasFull: bool, e: Entry)
      requires |was| == entry.Length == CAPACITY && at < CAPACITY
      requires entry[..] == was[at := e]
      requires inOffs == Wrap(at + 1)
      requires if wasFull then full && outOffs == inOffs
               else outOffs == 0 && full == (inOffs == 0)
      ensures Slots() == LastTen((if wasFull then was[at..] + was[..at] else was[..at]) + [e])
    {
      OverwriteRotated(was, at, e);
      var w := was[at := e];
      assert entry[outOffs..] == w[outOffs..] && entry[..outOffs] == w[..outOffs];
      if !wasFull {
        assert w[..at+1] == was[..at] + [e];
        assert Slots() == w[..at+1];
      }
    }

    /** aesd_circular_buffer_find_entry_offset_for_fpos: `given` is what the
        caller's offset variable held before; it is only replaced on a hit.
        The slot found is logical entry `k`. */
    method FindEntryOffsetForFpos(charOffset: nat, given: int)
      returns (slot: int, byteOffset: int, ghost k: nat)
      requires Valid()
      ensures slot == -1 <==> TotalSize(Logical()) <= charOffset
      ensures slot == -1 ==> byteOffset == given
      ensures slot != -1 ==>
                && k < |Logical()| && 0 <= slot < entry.Length && entry[slot] == Logical()[k]
                && slot == Wrap(outOffs + k)
                && 0 <= byteOffset < Logical()[k].size
                && TotalSize(Logical()[..k]) + byteOffset == charOffset
    {
      LogicalIsLastTen();
      slot, byteOffset, k := FindFrom(entry, inOffs, outOffs, full, charOffset, given, Logical());
    }

    /** The length loop of aesd_llseek: all ten slots, in physical order. */
    method SumSlots() returns (length: nat)
      requires Valid()
      ensures length == TotalSize(Logical())
    {
      length := 0;
      for i := 0 to CAPACITY
        invariant length == TotalSize(entry[..][..i])
      {
        TotalSizeNext(entry[..], i);
        length := length + entry[i].size;
      }
      assert entry[..][..CAPACITY] == entry[..];
      PhysicalTotal();
    }

    /** Stale or rotated, the physical slots add up to the logical contents. */
    lemma PhysicalTotal()
      requires Valid()
      ensures TotalSize(entry[..]) == TotalSize(Logical())
    {
      LogicalIsLastTen();
      if full {
        assert entry[..] == entry[..outOffs] + entry[outOffs..];
        TotalSizeConcat(entry[..outOffs], entry[outOffs..]);
        TotalSizeConcat(entry[outOffs..], entry[..outOffs]);
      } else {
        assert entry[..] == entry[outOffs..inOffs] + entry[inOffs..];
        TotalSizeConcat(entry[outOffs..inOffs], entry[inOffs..]);
        TotalSizeZero(entry[inOffs..]);
      }
    }

    /** The sum of aesd_ioctl from the slot `start`, whether or not that is still
        the slot of the oldest entry; from there on it is the size of the first
        `cmd` commands plus `offset`. Command 9 always gives 0. */
    method SumBefore(start: nat, cmd: nat, offset: nat) returns (byteCount: nat)
      requires Valid() && start < CAPACITY && cmd < CAPACITY
      ensures byteCount == if cmd == CAPACITY - 1 then 0 else WalkSize(entry[..], start, cmd) + offset
      ensures start == outOffs && cmd < CAPACITY - 1 ==> byteCount == SizeUpTo(Logical(), cmd) + offset
    {
      WalkFromOldest(cmd);
      byteCount := SumFrom(entry, start, cmd, offset);
    }

    /** The slots from the oldest one on are the logical entries, then unused ones. */
    lemma SlotAt(k: nat)
      requires Valid() && k < CAPACITY
      ensures outOffs < CAPACITY == entry.Length
      ensures entry[Wrap(outOffs + k)] == if k < |Logical()| then Logical()[k] else ZERO_ENTRY
    {
      LogicalIsLastTen();
    }

    /** The walk from the oldest slot meets the logical entries in order, and
        then slots of size 0. */
    lemma {:induction false} WalkFromOldest(cmd: nat)
      requires Valid() && cmd <= CAPACITY
      ensures outOffs < CAPACITY == entry.Length
      ensures WalkSize(entry[..], outOffs, cmd) == SizeUpTo(Logical(), cmd)
    {
      hide Ring.Valid, Ring.Logical;
      if cmd > 0 {
        WalkFromOldest(cmd - 1);
        SlotAt(cmd - 1);
        SizeUpToNext(Logical(), cmd - 1);
      } else {
        SlotAt(cmd);
        SizeUpToNext(Logical(), cmd);
      }
    }
  }
}
