/** Byte streams, newline-terminated commands, and the "last ten" window the
    aesdchar device keeps. These are the reference definitions that the ring
    buffer, the driver and the server are proved against. */
module ByteStream {

  /** Characters stand for bytes; nothing below depends on how many there are. */
  type Bytes = seq<char>

  const NEWLINE := '\n'

  /** AESDCHAR_MAX_WRITE_OPERATIONS_SUPPORTED */
  const CAPACITY := 10

  datatype Option<T> = None | Some(value: T)

  lemma Assoc<T>(a: seq<T>, b: seq<T>, c: seq<T>)
    ensures (a + b) + c == a + (b + c)
  {
  }

  lemma Snoc<T>(s: seq<T>)
    requires s != []
    ensures s == s[..|s|-1] + [s[|s|-1]]
  {
  }

  lemma CutAt<T>(s: seq<T>, k: nat)
    requires k < |s|
    ensures s == s[..k] + [s[k]] + s[k+1..]
  {
  }

  lemma SliceOfSlice<T>(s: seq<T>, lo: nat, hi: nat, at: nat)
    requires lo + at <= hi <= |s|
    ensures s[lo..hi][at..] == s[lo + at..hi]
    ensures s[..lo] + s[lo..hi][..at] == s[..lo + at]
  {
  }

  lemma SliceWithin<T>(s: seq<T>, at: nat, lo: nat, hi: nat)
    requires at <= lo <= hi <= |s|
    ensures s[at..][lo - at..hi - at] == s[lo..hi]
  {
  }

  // ---------------------------------------------------------------- splitting

  /** The newline-terminated commands of a stream, in order. */
  function Lines(s: Bytes): seq<Bytes> {
    if s == [] then []
    else if s[|s|-1] == NEWLINE then Lines(s[..|s|-1]) + [Tail(s[..|s|-1]) + [NEWLINE]]
    else Lines(s[..|s|-1])
  }

  /** What follows the last newline of a stream. */
  function Tail(s: Bytes): Bytes {
    if s == [] || s[|s|-1] == NEWLINE then []
    else Tail(s[..|s|-1]) + [s[|s|-1]]
  }

  function Flatten(ls: seq<Bytes>): Bytes {
    if ls == [] then [] else Flatten(ls[..|ls|-1]) + ls[|ls|-1]
  }

  /** A complete command: exactly one newline, at its end. */
  predicate IsLine(l: Bytes) {
    l != [] && l[|l|-1] == NEWLINE && NEWLINE !in l[..|l|-1]
  }

  predicate AllLines(ls: seq<Bytes>) {
    forall i :: 0 <= i < |ls| ==> IsLine(ls[i])
  }

  /** No line of `ls` is longer than `bound`. */
  predicate AllWithin(ls: seq<Bytes>, bound: nat) {
    forall i :: 0 <= i < |ls| ==> |ls[i]| <= bound
  }

  lemma FlattenNone()
    ensures Flatten([]) == []
  {
  }

  lemma {:induction false} FlattenSnoc(ls: seq<Bytes>, l: Bytes)
    ensures Flatten(ls + [l]) == Flatten(ls) + l
  {
    assert (ls + [l])[..|ls|] == ls;
  }

  lemma {:induction false} FlattenConcat(a: seq<Bytes>, b: seq<Bytes>)
    ensures Flatten(a + b) == Flatten(a) + Flatten(b)
  {
    hide Flatten;
    if b == [] {
      FlattenNone();
      assert a + b == a && Flatten(a) + [] == Flatten(a);
    } else {
      var init, last := b[..|b|-1], b[|b|-1];
      Snoc(b);
      Assoc(a, init, [last]);
      FlattenSnoc(a + init, last);
      FlattenSnoc(init, last);
      FlattenConcat(a, init);
      Assoc(Flatten(a), Flatten(init), last);
    }
  }

  lemma FlattenCons(l: Bytes, ls: seq<Bytes>)
    ensures Flatten([l] + ls) == l + Flatten(ls)
  {
    FlattenConcat([l], ls);
    FlattenSnoc([], l);
    assert [] + [l] == [l] && [] + l == l;
  }

  lemma {:induction false} AppendByte(s: Bytes, c: char)
    ensures Lines(s + [c]) == if c == NEWLINE then Lines(s) + [Tail(s) + [c]] else Lines(s)
    ensures Tail(s + [c]) == if c == NEWLINE then [] else Tail(s) + [c]
  {
    assert (s + [c])[..|s|] == s;
  }

  lemma FinishLine(ls: seq<Bytes>, t: Bytes)
    requires AllLines(ls) && NEWLINE !in t
    ensures Flatten(ls + [t + [NEWLINE]]) + [] == (Flatten(ls) + t) + [NEWLINE]
    ensures AllLines(ls + [t + [NEWLINE]])
  {
    var l := t + [NEWLINE];
    FlattenSnoc(ls, l);
    Assoc(Flatten(ls), t, [NEWLINE]);
    hide Flatten;
    assert l[..|l|-1] == t;
  }

  /** Splitting loses nothing, and cuts only after newlines. */
  lemma {:induction false} SplitExact(s: Bytes)
    ensures Flatten(Lines(s)) + Tail(s) == s
    ensures AllLines(Lines(s)) && NEWLINE !in Tail(s)
  {
    if s != [] {
      var init, c := s[..|s|-1], s[|s|-1];
      SplitExact(init);
      Snoc(s);
      AppendByte(init, c);
      hide Lines, Tail, Flatten, AllLines;
      if c == NEWLINE {
        FinishLine(Lines(init), Tail(init));
      } else {
        Assoc(Flatten(Lines(init)), Tail(init), [c]);
      }
    }
  }

  /** A newline-free piece only extends the unfinished command. */
  lemma {:induction false} AppendPiece(s: Bytes, p: Bytes)
    requires NEWLINE !in p
    ensures Lines(s + p) == Lines(s) && Tail(s + p) == Tail(s) + p
  {
    if p == [] {
      assert s + p == s;
    } else {
      var init, c := p[..|p|-1], p[|p|-1];
      assert c != NEWLINE && NEWLINE !in init;
      AppendPiece(s, init);
      AppendByte(s + init, c);
      Snoc(p);
      Assoc(s, init, [c]);
      Assoc(Tail(s), init, [c]);
    }
  }

  /** A piece that ends at its first newline finishes the unfinished command. */
  lemma AppendLine(s: Bytes, p: Bytes)
    requires IsLine(p)
    ensures Lines(s + p) == Lines(s) + [Tail(s) + p] && Tail(s + p) == []
  {
    var init := p[..|p|-1];
    AppendPiece(s, init);
    AppendByte(s + init, NEWLINE);
    Snoc(p);
    Assoc(s, init, [NEWLINE]);
    Assoc(Tail(s), init, [NEWLINE]);
  }

  lemma {:induction false} LinesGrow(s: Bytes, more: Bytes)
    ensures Lines(s) <= Lines(s + more)
  {
    if more == [] {
      assert s + more == s;
    } else {
      var init, c := more[..|more|-1], more[|more|-1];
      LinesGrow(s, init);
      AppendByte(s + init, c);
      Snoc(more);
      Assoc(s, init, [c]);
    }
  }

  /** The split is the only one: any reading of a stream as complete commands
      followed by a newline-free rest is the one Lines and Tail give. */
  lemma {:induction false} SplitUnique(ls: seq<Bytes>, t: Bytes)
    requires AllLines(ls) && NEWLINE !in t
    ensures Lines(Flatten(ls) + t) == ls && Tail(Flatten(ls) + t) == t
  {
    AppendPiece(Flatten(ls), t);
    assert [] + t == t;
    if ls != [] {
      var init, l := ls[..|ls|-1], ls[|ls|-1];
      SplitUnique(init, []);
      assert Flatten(init) + [] == Flatten(init);
      AppendLine(Flatten(init), l);
      assert [] + l == l;
      Snoc(ls);
    }
  }

  // ------------------------------------------------------- last-ten window

  function LastTen<T>(s: seq<T>): seq<T> {
    if |s| <= CAPACITY then s else s[|s| - CAPACITY..]
  }

  /** Adding to a window and adding to the whole sequence agree. */
  /** The slot of the oldest command after `count` of them were stored. */
  function OldestSlot(count: nat): nat {
    if count < CAPACITY then 0 else count % CAPACITY
  }

  lemma NextOldestSlot(count: nat)
    ensures OldestSlot(count) < CAPACITY && (count < CAPACITY ==> OldestSlot(count) == 0)
    ensures OldestSlot(count + 1) == if count >= CAPACITY then (OldestSlot(count) + 1) % CAPACITY else 0
  {
  }

  /** How many of `count` commands have been overwritten. */
  function Evicted(count: nat): nat {
    if count <= CAPACITY then 0 else count - CAPACITY
  }

  lemma LastTenSnoc<T>(s: seq<T>, x: T)
    ensures LastTen(LastTen(s) + [x]) == LastTen(s + [x])
  {
  }

  // ------------------------------------------------------- positions in lines

  /** Length of the first `k` lines laid end to end. */
  function Before(ls: seq<Bytes>, k: nat): nat
    requires k <= |ls|
  {
    |Flatten(ls[..k])|
  }

  lemma BeforeNext(ls: seq<Bytes>, k: nat)
    requires k < |ls|
    ensures Before(ls, k + 1) == Before(ls, k) + |ls[k]|
  {
    assert ls[..k+1][..k] == ls[..k];
  }

  lemma {:induction false} BeforeMonotone(ls: seq<Bytes>, j: nat, k: nat)
    requires j <= k <= |ls|
    ensures Before(ls, j) <= Before(ls, k) <= |Flatten(ls)|
    decreases k - j
  {
    assert ls == ls[..k] + ls[k..];
    FlattenConcat(ls[..k], ls[k..]);
    if j < k {
      BeforeMonotone(ls, j, k - 1);
      BeforeNext(ls, k - 1);
    }
  }

  /** What comes before line `k`, the line, and what comes after it. */
  lemma LineCut(ls: seq<Bytes>, k: nat)
    requires k < |ls|
    ensures Flatten(ls) == Flatten(ls[..k]) + ls[k] + Flatten(ls[k+1..])
  {
    hide Flatten;
    CutAt(ls, k);
    FlattenSnoc(ls[..k], ls[k]);
    FlattenConcat(ls[..k] + [ls[k]], ls[k+1..]);
  }

  lemma MiddleSlice<T>(a: seq<T>, b: seq<T>, c: seq<T>)
    ensures |a| + |b| <= |a + b + c| && (a + b + c)[|a|..|a| + |b|] == b
  {
  }

  /** Line `k` occupies positions Before(k) up to Before(k+1) of the whole. */
  lemma LineOccupies(ls: seq<Bytes>, k: nat)
    requires k < |ls|
    ensures Before(ls, k) + |ls[k]| == Before(ls, k + 1) <= |Flatten(ls)|
    ensures Flatten(ls)[Before(ls, k)..Before(ls, k + 1)] == ls[k]
  {
    hide Flatten;
    BeforeNext(ls, k);
    LineCut(ls, k);
    MiddleSlice(Flatten(ls[..k]), ls[k], Flatten(ls[k+1..]));
  }

  /** At most one line contains a given position. */
  lemma LineAtUnique(ls: seq<Bytes>, pos: nat, j: nat, k: nat)
    requires j < |ls| && Before(ls, j) <= pos < Before(ls, j) + |ls[j]|
    requires k < |ls| && Before(ls, k) <= pos < Before(ls, k) + |ls[k]|
    ensures j == k
  {
    BeforeNext(ls, j);
    BeforeNext(ls, k);
    if j < k {
      BeforeMonotone(ls, j + 1, k);
    } else if k < j {
      BeforeMonotone(ls, k + 1, j);
    }
  }

  // ------------------------------------------------------- what one write takes

  /** How many bytes one write takes: up to and including the first newline,
      or everything when there is none. */
  function Accepted(buf: Bytes): (n: nat)
    ensures n <= |buf|
  {
    if buf == [] then 0
    else if buf[0] == NEWLINE then 1
    else 1 + Accepted(buf[1..])
  }

  /** `n` is the end of the first command in `buf`, or of `buf` itself. */
  predicate IsCut(buf: Bytes, n: nat) {
    && n <= |buf|
    && (forall i :: 0 <= i < n - 1 ==> buf[i] != NEWLINE)
    && (n < |buf| ==> n > 0 && buf[n-1] == NEWLINE)
  }

  lemma {:induction false} AcceptedIsCut(buf: Bytes)
    ensures IsCut(buf, Accepted(buf))
  {
    if buf != [] && buf[0] != NEWLINE {
      AcceptedIsCut(buf[1..]);
      forall i | 0 <= i < Accepted(buf) - 1 ensures buf[i] != NEWLINE {
        if i > 0 {
          assert buf[i] == buf[1..][i-1];
        }
      }
    }
  }

  /** IsCut determines the number of bytes taken. */
  lemma CutIsAccepted(buf: Bytes, n: nat)
    ensures IsCut(buf, n) <==> n == Accepted(buf)
  {
    AcceptedIsCut(buf);
  }

  predicate EndsCommand(buf: Bytes, n: nat) {
    0 < n <= |buf| && buf[n-1] == NEWLINE
  }

  /** A piece of the accepted size is either newline-free or a complete line. */
  lemma AcceptedShape(buf: Bytes)
    ensures if EndsCommand(buf, Accepted(buf)) then IsLine(buf[..Accepted(buf)])
            else Accepted(buf) == |buf| && NEWLINE !in buf
  {
    AcceptedIsCut(buf);
    var n := Accepted(buf);
    if EndsCommand(buf, n) {
      assert buf[..n][..n-1] == buf[..n-1];
    } else {
      assert forall i :: 0 <= i < |buf| ==> buf[i] != NEWLINE;
    }
  }

  lemma EndsIffNewline(buf: Bytes)
    ensures Accepted(buf) <= |buf| && (EndsCommand(buf, Accepted(buf)) <==> NEWLINE in buf)
  {
    hide Accepted;
    AcceptedShape(buf);
    if EndsCommand(buf, Accepted(buf)) {
      assert buf[Accepted(buf) - 1] == NEWLINE;
    }
  }

  lemma LineIsAcceptedWhole(l: Bytes)
    requires IsLine(l)
    ensures Accepted(l) == |l| && EndsCommand(l, |l|) && l[..|l|] == l == l[0..]
  {
    forall i | 0 <= i < |l| - 1
      ensures l[i] != NEWLINE
    {
      assert l[i] == l[..|l|-1][i];
    }
    CutIsAccepted(l, |l|);
  }
}
