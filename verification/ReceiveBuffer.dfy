/** The receive buffer of receivePackets: one byte at a time, doubling when full. */
module ReceiveBuffer {
  import opened ByteStream

  const BUFFER_SIZE := 1024

  function Pow2(n: nat): nat {
    if n == 0 then 1 else 2 * Pow2(n - 1)
  }

  function Max(a: nat, b: nat): nat {
    if a < b then b else a
  }

  /** Length of the longest command, finished or not, met while receiving `s`. */
  function Longest(s: Bytes): nat {
    if s == [] then 0 else Max(Longest(s[..|s|-1]), |Tail(s[..|s|-1])| + 1)
  }

  /** Longest is the maximum over all commands of the stream and its rest. */
  lemma {:induction false} LongestIsMaximum(s: Bytes)
    ensures AllWithin(Lines(s), Longest(s)) && |Tail(s)| <= Longest(s)
    ensures Longest(s) == |Tail(s)| || exists i :: 0 <= i < |Lines(s)| && |Lines(s)[i]| == Longest(s)
  {
    if s != [] {
      var init := s[..|s|-1];
      LongestIsMaximum(init);
      var n := |Lines(init)|;
      if s[|s|-1] == NEWLINE {
        assert Lines(s)[n] == Tail(init) + [NEWLINE];
        assert Lines(s)[..n] == Lines(init);
      }
      if Longest(s) == Longest(init) != |Tail(init)| {
        var i :| 0 <= i < n && |Lines(init)[i]| == Longest(init);
        assert Lines(s)[i] == Lines(init)[i];
      }
    }
  }

  /** The capacity of the buffer after receiving `s`, if it could always grow. */
  function Capacity(s: Bytes): nat
    decreases |s|, 0
  {
    if s == [] then BUFFER_SIZE
    else if MustGrow(s[..|s|-1]) then 2 * Capacity(s[..|s|-1])
    else Capacity(s[..|s|-1])
  }

  /** After `s` the buffer is full, so that the next byte makes it grow. */
  predicate MustGrow(s: Bytes)
    decreases |s|, 1
  {
    |Tail(s)| >= Capacity(s)
  }

  class LineBuffer {
    var data: array<char>        // `buffer`, with `buf_size` as its length
    var len: nat
    ghost var received: Bytes    // every byte pushed so far
    ghost var doublings: nat
    ghost var copied: nat        // bytes moved by reallocations so far

    /** The buffer holds exactly the unfinished command; its capacity is 1024
        times a power of two, below twice the longest command once it has
        grown, and all growth together has copied fewer bytes than that. */
    ghost predicate Valid()
      reads this, data
    {
      && len <= data.Length == Capacity(received)
      && data.Length == BUFFER_SIZE * Pow2(doublings)
      && copied + BUFFER_SIZE == data.Length
      && (data.Length > BUFFER_SIZE ==> data.Length < 2 * Longest(received))
    }

    ghost predicate HoldsTail()
      reads this, data
    {
      len <= data.Length && data[..len] == Tail(received)
    }

    /** What the invariant says about a capacity that has grown. */
    lemma CapacityBound()
      requires Valid()
      ensures data.Length == Capacity(received) == BUFFER_SIZE * Pow2(doublings) && copied < data.Length
      ensures data.Length > BUFFER_SIZE ==> data.Length < 2 * Longest(received)
    {
    }

    constructor ()
      ensures Valid() && HoldsTail() && fresh(data) && received == []
    {
      data := new char[BUFFER_SIZE];
      len := 0;
      received := [];
      doublings, copied := 0, 0;
    }

    /** Appends one received byte. When the buffer is full it is first moved to
        one twice as large; if that fails nothing is appended. */
    method Push(ch: char, reallocFails: bool) returns (ok: bool)
      requires Valid() && HoldsTail()
      modifies this, data
      ensures Valid() && (data == old(data) || fresh(data))
      ensures ok <==> !(MustGrow(old(received)) && reallocFails)
      ensures ok ==> received == old(received) + [ch] && 0 < len <= data.Length
                     && data[..len] == Tail(old(received)) + [ch]
                     && (ch != NEWLINE ==> HoldsTail())
      ensures !ok ==> received == old(received) && HoldsTail()
    {
      ghost var tail := Tail(received);
      if len >= data.Length {
        if reallocFails {
          return false;
        }
        var tmp := new char[data.Length * 2];
        forall i | 0 <= i < data.Length {
          tmp[i] := data[i];
        }
        copied := copied + data.Length;
        doublings := doublings + 1;
        data := tmp;
        assert data[..len] == tail;
      }
      data[len] := ch;
      len := len + 1;
      assert data[..len] == tail + [ch];
      assert (received + [ch])[..|received|] == received;
      received := received + [ch];
      ok := true;
    }

    /** The line in the buffer has been dealt with. */
    method Reset()
      requires Valid() && received != [] && received[|received|-1] == NEWLINE
      modifies this`len
      ensures Valid() && HoldsTail()
    {
      len := 0;
    }
  }
}
