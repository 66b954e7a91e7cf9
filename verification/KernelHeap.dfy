/** The kernel allocator as the driver relies on it. A block id names one
    allocation: ids are never reused, so "freed exactly once" can be stated. */
module KernelHeap {
  import opened ByteStream

  datatype Pointer = Null | Block(id: nat)

  function IdOf(p: Pointer): set<nat> {
    if p.Block? then {p.id} else {}
  }

  class Heap {
    var blocks: map<nat, Bytes>       // the live allocations and their bytes
    var next: nat                     // the next id to hand out
    ghost var frees: multiset<nat>    // how often each id was freed

    /** Every id handed out is either live and never freed, or freed once. */
    ghost predicate Valid()
      reads this
    {
      && (forall id :: id in blocks ==> id < next)
      && (forall id: nat :: frees[id] == if id < next && id !in blocks then 1 else 0)
    }

    constructor ()
      ensures Valid() && blocks == map[] && next == 0
    {
      blocks, next, frees := map[], 0, multiset{};
    }

    /** A request of size 0 yields an empty block of its own, or fails like any
        other. Linux answers it with one shared sentinel, which never fails and
        which kfree ignores. */
    method Kmalloc(size: nat, fails: bool) returns (p: Pointer)
      requires Valid()
      modifies this
      ensures Valid()
      ensures fails ==> p == Null && blocks == old(blocks)
      ensures !fails ==> p.Block? && p.id !in old(blocks) && p.id == old(next)
      ensures !fails ==> p.id in blocks && |blocks[p.id]| == size
      ensures !fails ==> blocks == old(blocks)[p.id := blocks[p.id]]
    {
      if fails {
        p := Null;
      } else {
        p := Block(next);
        var b: Bytes := seq(size, _ => '\0');
        blocks := blocks[next := b];
        next := next + 1;
      }
    }

    /** Resizes in place or moves; the common prefix survives, and a moved-from
        block is freed. On failure nothing changes. */
    method Krealloc(p: Pointer, size: nat, fails: bool, moves: bool) returns (q: Pointer)
      requires Valid() && (p.Block? ==> p.id in blocks)
      modifies this
      ensures Valid()
      ensures fails ==> q == Null && blocks == old(blocks)
      ensures !fails ==> q.Block? && (q == p || q.id !in old(blocks))
      ensures !fails ==> q.id in blocks && |blocks[q.id]| == size
      ensures !fails ==> blocks == (old(blocks) - IdOf(p))[q.id := blocks[q.id]]
      ensures !fails && p.Block? && |old(blocks)[p.id]| <= size ==> old(blocks)[p.id] <= blocks[q.id]
    {
      if fails {
        q := Null;
      } else {
        var kept: Bytes := if p.Block? then blocks[p.id] else [];
        var b: Bytes := if size <= |kept| then kept[..size] else kept + seq(size - |kept|, _ => '\0');
        if p.Block? && !moves {
          q := p;
          blocks := blocks[p.id := b];
        } else {
          q := Block(next);
          next := next + 1;
          blocks := blocks[q.id := b];
          Kfree(p);
        }
      }
    }

    method Memcpy(p: Pointer, at: nat, src: Bytes)
      requires Valid() && p.Block? && p.id in blocks && at + |src| <= |blocks[p.id]|
      modifies this
      ensures Valid() && next == old(next)
      ensures blocks == old(blocks)[p.id := old(blocks)[p.id][..at] + src + old(blocks)[p.id][at + |src|..]]
    {
      blocks := blocks[p.id := blocks[p.id][..at] + src + blocks[p.id][at + |src|..]];
    }

    /** Freeing NULL does nothing; anything else must be live. */
    method Kfree(p: Pointer)
      requires Valid() && (p.Block? ==> p.id in blocks)
      modifies this
      ensures Valid() && next == old(next)
      ensures blocks == old(blocks) - IdOf(p)
      ensures frees == old(frees) + multiset(IdOf(p))
    {
      if p.Block? {
        blocks := blocks - {p.id};
        frees := frees + multiset{p.id};
      }
    }
  }
}
