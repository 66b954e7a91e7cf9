/** The driver under concurrent callers (main.c): every interleaving of the
    steps of writes, reads, length queries and seek requests by any number of
    threads, with the semaphore as the only synchronisation, against atomic
    calls. */
module SemaphoreRuns {
  import opened ByteStream
  import opened CommandLog

  /** A file operation: aesd_write, aesd_read, the length taken by aesd_llseek,
      or the sum taken by aesd_ioctl, whose llseek is a LengthCall of its own. */
  datatype Call =
    | WriteCall(buf: Bytes, faults: WriteFaults)
    | ReadCall(pos: nat, copyFails: bool)
    | LengthCall
    | SumCall(cmd: nat, offset: nat, copyFails: bool)

  datatype Outcome = Returned(value: int) | Delivered(bytes: Bytes)

  /** The device and the slot of its oldest command. */
  datatype Atomic = Atomic(log: Log, out: nat)

  /** A call that got the semaphore: whose it is, and the slot of the oldest
      command as read before, which only a SumCall uses. */
  datatype Admission = Admission(thread: nat, call: Call, slot: nat)

  // ---------------------------------------------------------------- atomic calls

  function Apply(a: Atomic, call: Call): Atomic {
    if call.WriteCall?
    then Atomic(FaultyWrite(a.log, call.buf, call.faults), SlotAfter(a.log, a.out, call.buf, call.faults))
    else a
  }

  /** What the call returns; a SumCall adds up from the slot it has read. */
  function OutcomeOf(a: Atomic, call: Call, slot: nat): Outcome {
    match call
    case WriteCall(buf, faults) => Returned(WriteResult(buf, faults))
    case ReadCall(pos, copyFails) =>
      var chunk := ReadChunk(a.log.lines, pos);
      if copyFails && chunk != [] then Returned(-EFAULT) else Delivered(chunk)
    case LengthCall => Returned(|Contents(a.log)|)
    case SumCall(cmd, offset, copyFails) =>
      if TurnedAway(call) || slot >= CAPACITY || a.out >= CAPACITY then RefusalOf(call)
      else Returned(StaleTarget(a.log.lines, Lag(slot, a.out), cmd, offset))
  }

  /** The call fails before it asks for the semaphore. */
  predicate TurnedAway(call: Call) {
    match call
    case WriteCall(_, faults) => faults.scratch || faults.copy
    case SumCall(cmd, _, copyFails) => copyFails || cmd >= CAPACITY
    case _ => false
  }

  function RefusalOf(call: Call): Outcome {
    match call
    case WriteCall(_, faults) => Returned(if faults.scratch then -ENOMEM else -EFAULT)
    case SumCall(_, _, copyFails) => Returned(if copyFails then -EFAULT else -EINVAL)
    case _ => Returned(0)
  }

  /** The calls applied one after the other. */
  function Replay(order: seq<Admission>): Atomic {
    if order == [] then Atomic(EMPTY, 0) else Apply(Replay(order[..|order|-1]), order[|order|-1].call)
  }

  /** What they return then, and to whom. */
  function Outcomes(order: seq<Admission>): seq<(nat, Outcome)> {
    if order == [] then []
    else
      var last := order[|order|-1];
      Outcomes(order[..|order|-1]) + [(last.thread, OutcomeOf(Replay(order[..|order|-1]), last.call, last.slot))]
  }

  /** All bytes the calls put into the device, in order. */
  function AcceptedBytes(order: seq<Admission>): Bytes {
    if order == [] then []
    else
      var last := order[|order|-1].call;
      AcceptedBytes(order[..|order|-1]) + if last.WriteCall? then Taken(last.buf, last.faults) else []
  }

  /** Atomic calls keep the device equal to the split of the accepted bytes, and
      the slot of the oldest command that of the commands stored. */
  lemma {:induction false} ReplayIsHistory(order: seq<Admission>)
    ensures Replay(order).log == Of(AcceptedBytes(order))
    ensures Replay(order).out == OldestSlot(|Lines(AcceptedBytes(order))|)
  {
    hide Lines, Tail, Accepted, EndsCommand, OldestSlot;
    if order == [] {
      NothingStored();
    } else {
      var init, last := order[..|order|-1], order[|order|-1].call;
      ReplayIsHistory(init);
      assert AcceptedBytes(init) + [] == AcceptedBytes(init);
      if last.WriteCall? {
        FaultyWriteExtends(AcceptedBytes(init), last.buf, last.faults);
        CommitsCount(AcceptedBytes(init), last.buf, last.faults);
      }
    }
  }

  lemma NothingStored()
    ensures Of([]) == EMPTY && Lines([]) == [] && OldestSlot(0) == 0
  {
  }

  /** One write stores at most one command. */
  lemma CommitsCount(history: Bytes, buf: Bytes, faults: WriteFaults)
    ensures OldestSlot(|Lines(history + Taken(buf, faults))|)
         == SlotAfter(Of(history), OldestSlot(|Lines(history)|), buf, faults)
  {
    hide Lines, Tail, Accepted, EndsCommand, IsLine, OldestSlot;
    NextOldestSlot(|Lines(history)|);
    var n := Accepted(buf);
    AcceptedShape(buf);
    if Takes(faults) && EndsCommand(buf, n) {
      AppendLine(history, buf[..n]);
    } else if Takes(faults) {
      AppendPiece(history, buf[..n]);
    } else {
      assert history + [] == history;
    }
  }

  /** What call `k` returns, to whom. */
  lemma {:induction false} OutcomeAt(order: seq<Admission>, k: nat)
    requires k < |order|
    ensures |Outcomes(order)| == |order|
    ensures Outcomes(order)[k] == (order[k].thread, OutcomeOf(Replay(order[..k]), order[k].call, order[k].slot))
    ensures Outcomes(order)[..k] == Outcomes(order[..k])
  {
    hide Replay, OutcomeOf;
    var init := order[..|order|-1];
    if k < |init| {
      OutcomeAt(init, k);
      assert init[..k] == order[..k];
    } else if k > 0 {
      OutcomeAt(init, k - 1);
    }
  }

  // ---------------------------------------------------------------- threads

  /** Where a thread is. From Growing to Leaving it holds the semaphore. */
  datatype Place =
    | Idle
    | Copying(call: Call)
    | Scanning(buf: Bytes, faults: WriteFaults, index: nat)
    | Waiting(call: Call, piece: Bytes, slot: nat)
    | Growing(buf: Bytes, faults: WriteFaults, piece: Bytes)
    | Committing(buf: Bytes, faults: WriteFaults, piece: Bytes)
    | Resetting(buf: Bytes, faults: WriteFaults, piece: Bytes)
    | Looking(call: Call, slot: nat)
    | Leaving(outcome: Outcome)

  predicate Inside(p: Place) {
    p.Growing? || p.Committing? || p.Resetting? || p.Looking? || p.Leaving?
  }

  /** The device, the semaphore's holder and the threads. `started` lists the
      calls as the threads begin them, `order` as they get the semaphore, and
      `outcomes` what those that released it returned; `refused` lists the calls
      that failed before they asked for it, with what they returned. */
  datatype System = System(dev: Atomic, holder: Option<nat>, threads: seq<Place>, started: seq<(nat, Call)>,
                           order: seq<Admission>, outcomes: seq<(nat, Outcome)>,
                           refused: seq<(nat, Call, Outcome)>)

  function Start(n: nat): System {
    System(Atomic(EMPTY, 0), None, seq(n, _ => Idle), [], [], [], [])
  }

  function Move(s: System, i: nat, p: Place): System
    requires i < |s.threads|
  {
    s.(threads := s.threads[i := p])
  }

  /** A call outside the semaphore: begun, copied from user space and checked,
      and scanned; a seek request reads the slot of the oldest command last. */
  function Prepare(s: System, i: nat, call: Call): System
    requires i < |s.threads| && !Inside(s.threads[i]) && !s.threads[i].Waiting?
  {
    match s.threads[i]
    case Idle =>
      Move(s, i, if call.WriteCall? || call.SumCall? then Copying(call) else Waiting(call, [], 0))
      .(started := s.started + [(i, call)])
    case Copying(c) =>
      if TurnedAway(c) then Move(s, i, Idle).(refused := s.refused + [(i, c, RefusalOf(c))])
      else Move(s, i, if c.WriteCall? then Scanning(c.buf, c.faults, 0) else Waiting(c, [], s.dev.out))
    case Scanning(buf, faults, k) =>
      if k < |buf| && buf[k] != NEWLINE then Move(s, i, Scanning(buf, faults, k + 1))
      else Move(s, i, Waiting(WriteCall(buf, faults), if k < |buf| then buf[..k+1] else buf, 0))
  }

  /** The write of one piece by the holder, in the steps the code takes. */
  function Put(s: System, i: nat): System
    requires i < |s.threads|
    requires s.threads[i].Growing? || s.threads[i].Committing? || s.threads[i].Resetting?
  {
    var log := s.dev.log;
    match s.threads[i]
    case Growing(buf, faults, piece) =>
      if faults.grow then Move(s, i, Leaving(Returned(-ENOMEM)))
      else Move(s, i, if EndsCommand(piece, |piece|) then Committing(buf, faults, piece)
                      else Leaving(Returned(|piece|)))
           .(dev := s.dev.(log := log.(pending := log.pending + piece)))
    case Committing(buf, faults, piece) =>
      Move(s, i, Resetting(buf, faults, piece))
      .(dev := Atomic(log.(lines := LastTen(log.lines + [log.pending])),
                      if |log.lines| == CAPACITY then (s.dev.out + 1) % CAPACITY else s.dev.out))
    case Resetting(buf, faults, piece) =>
      Move(s, i, Leaving(Returned(if faults.reset then -ENOMEM else |piece|)))
      .(dev := s.dev.(log := log.(pending := [])))
  }

  /** Thread `i` takes its next step; an idle thread starts `call`. A thread
      that finds the semaphore taken stays where it is. */
  function Step(s: System, i: nat, call: Call): (t: System)
    requires i < |s.threads|
    ensures |t.threads| == |s.threads|
  {
    match s.threads[i]
    case Idle => Prepare(s, i, call)
    case Copying(_) => Prepare(s, i, call)
    case Scanning(_, _, _) => Prepare(s, i, call)
    case Waiting(c, piece, slot) =>
      if s.holder.Some? then s
      else Move(s, i, if c.WriteCall? then Growing(c.buf, c.faults, piece) else Looking(c, slot))
           .(holder := Some(i), order := s.order + [Admission(i, c, slot)])
    case Looking(c, slot) =>
      Move(s, i, Leaving(OutcomeOf(s.dev, c, slot)))
    case Leaving(outcome) =>
      Move(s, i, Idle).(holder := None, outcomes := s.outcomes + [(i, outcome)])
    case _ => Put(s, i)
  }

  /** One entry of a schedule: which thread steps, and what it starts when idle. */
  type Schedule = seq<(nat, Call)>

  predicate Fits(schedule: Schedule, n: nat) {
    forall k :: 0 <= k < |schedule| ==> schedule[k].0 < n
  }

  function Run(s: System, schedule: Schedule): (r: System)
    requires Fits(schedule, |s.threads|)
    ensures |r.threads| == |s.threads|
  {
    if schedule == [] then s
    else
      var r := Run(s, schedule[..|schedule|-1]);
      var (i, call) := schedule[|schedule|-1];
      Step(r, i, call)
  }

  // ---------------------------------------------------------------- invariant

  predicate ReadyToAdd(buf: Bytes, faults: WriteFaults, piece: Bytes) {
    piece == buf[..Accepted(buf)] && !faults.scratch && !faults.copy
  }

  predicate ReadyToCommit(buf: Bytes, faults: WriteFaults, piece: Bytes) {
    ReadyToAdd(buf, faults, piece) && !faults.grow && EndsCommand(piece, |piece|)
  }

  /** What a thread knows about its own call. */
  predicate PlaceOk(p: Place) {
    match p
    case Copying(c) => c.WriteCall? || c.SumCall?
    case Scanning(buf, faults, k) => k <= |buf| && NEWLINE !in buf[..k] && !faults.scratch && !faults.copy
    case Waiting(c, piece, slot) => !TurnedAway(c) && (c.WriteCall? ==> ReadyToAdd(c.buf, c.faults, piece))
    case Growing(buf, faults, piece) => ReadyToAdd(buf, faults, piece)
    case Committing(buf, faults, piece) => ReadyToCommit(buf, faults, piece)
    case Resetting(buf, faults, piece) => ReadyToCommit(buf, faults, piece)
    case Looking(c, _) => !c.WriteCall? && !TurnedAway(c)
    case _ => true
  }

  /** How far the holder has got from the atomic state `before` its call. */
  predicate HalfDone(dev: Atomic, p: Place, before: Atomic, last: Admission) {
    match p
    case Growing(buf, faults, _) =>
      last.call == WriteCall(buf, faults) && dev == before
    case Committing(buf, faults, piece) =>
      && last.call == WriteCall(buf, faults)
      && dev == before.(log := before.log.(pending := before.log.pending + piece))
    case Resetting(buf, faults, piece) =>
      && last.call == WriteCall(buf, faults)
      && dev.log.pending == before.log.pending + piece
      && dev.log.lines == LastTen(before.log.lines + [dev.log.pending])
      && dev.out == if |before.log.lines| == CAPACITY then (before.out + 1) % CAPACITY else before.out
    case Looking(c, slot) => last.call == c && last.slot == slot && dev == before
    case Leaving(outcome) => dev == Apply(before, last.call) && outcome == OutcomeOf(before, last.call, last.slot)
    case _ => false
  }

  /** At most one thread is inside, and it is the holder. */
  predicate Exclusive(threads: seq<Place>, holder: Option<nat>) {
    && (forall i :: 0 <= i < |threads| ==> PlaceOk(threads[i]))
    && (forall i :: 0 <= i < |threads| ==> (Inside(threads[i]) <==> holder == Some(i)))
    && (holder.Some? ==> holder.value < |threads|)
  }

  /** With nobody inside, the shared state is that of the atomic calls in
      acquisition order, and the calls returned what atomic calls return. */
  predicate Settled(s: System) {
    s.dev == Replay(s.order) && s.outcomes == Outcomes(s.order)
  }

  /** With thread `h` inside, it is so up to what that thread has already done. */
  predicate Unsettled(s: System, h: nat, p: Place) {
    && s.order != []
    && var earlier, last := s.order[..|s.order|-1], s.order[|s.order|-1];
       && last.thread == h && s.outcomes == Outcomes(earlier)
       && HalfDone(s.dev, p, Replay(earlier), last)
  }

  predicate Linear(s: System) {
    && Exclusive(s.threads, s.holder)
    && if s.holder.None? then Settled(s) else Unsettled(s, s.holder.value, s.threads[s.holder.value])
  }

  lemma MoveKeepsExclusive(threads: seq<Place>, holder: Option<nat>, i: nat, p: Place, newHolder: Option<nat>)
    requires Exclusive(threads, holder) && i < |threads| && PlaceOk(p)
    requires Inside(p) <==> newHolder == Some(i)
    requires newHolder == holder || (holder in {None, Some(i)} && newHolder in {None, Some(i)})
    ensures Exclusive(threads[i := p], newHolder)
  {
  }

  /** Before the semaphore a thread works only on its own call. */
  lemma PreparePlace(s: System, i: nat, call: Call)
    requires i < |s.threads| && PlaceOk(s.threads[i]) && !Inside(s.threads[i]) && !s.threads[i].Waiting?
    ensures var t, p := Prepare(s, i, call), s.threads[i];
            && PlaceOk(t.threads[i]) && !Inside(t.threads[i])
            && t.threads == s.threads[i := t.threads[i]]
            && (t.dev, t.holder, t.order, t.outcomes) == (s.dev, s.holder, s.order, s.outcomes)
  {
    hide Accepted, RefusalOf;
    if s.threads[i].Scanning? {
      ScanFinds(s.threads[i].buf, s.threads[i].index);
    }
  }

  /** The scan stops at the end of the first command. */
  lemma ScanFinds(buf: Bytes, k: nat)
    requires k <= |buf| && NEWLINE !in buf[..k]
    ensures k == |buf| ==> Accepted(buf) == |buf| && buf[..|buf|] == buf
    ensures k < |buf| && buf[k] == NEWLINE ==> Accepted(buf) == k + 1
    ensures k < |buf| && buf[k] != NEWLINE ==> NEWLINE !in buf[..k+1]
  {
    hide Accepted;
    assert forall i :: 0 <= i < k ==> buf[i] == buf[..k][i];
    if k < |buf| && buf[k] == NEWLINE {
      CutIsAccepted(buf, k + 1);
    } else if k == |buf| {
      CutIsAccepted(buf, k);
    }
  }

  /** The steps of a thread that is not inside. */
  lemma OutsideStep(s: System, i: nat, call: Call)
    requires Linear(s) && i < |s.threads| && !Inside(s.threads[i])
    ensures Linear(Step(s, i, call))
  {
    hide Replay, Outcomes, Accepted, Apply, OutcomeOf, PlaceOk, Prepare, TurnedAway;
    assert PlaceOk(s.threads[i]) && s.holder != Some(i);
    if !s.threads[i].Waiting? {
      var t := Prepare(s, i, call);
      PreparePlace(s, i, call);
      MoveKeepsExclusive(s.threads, s.holder, i, t.threads[i], s.holder);
    } else if s.holder.None? {
      Enter(s, i, call);
    }
  }

  /** A waiting thread gets the free semaphore. */
  lemma Enter(s: System, i: nat, call: Call)
    requires Linear(s) && i < |s.threads| && s.threads[i].Waiting? && s.holder.None?
    ensures Linear(Step(s, i, call))
  {
    hide Replay, Outcomes, Accepted, Apply, OutcomeOf, Exclusive, TurnedAway;
    var t := Step(s, i, call);
    assert PlaceOk(s.threads[i]) by { IsExclusive(s, i); }
    assert t.order[..|t.order|-1] == s.order;
    MoveKeepsExclusive(s.threads, s.holder, i, t.threads[i], t.holder);
  }

  lemma IsExclusive(s: System, i: nat)
    requires Exclusive(s.threads, s.holder) && i < |s.threads|
    ensures PlaceOk(s.threads[i]) && (Inside(s.threads[i]) <==> s.holder == Some(i))
  {
  }

  /** The holder's part of an atomic call is what the atomic call does. */
  lemma HalfStep(dev: Atomic, p: Place, before: Atomic, last: Admission)
    requires PlaceOk(p) && HalfDone(dev, p, before, last)
    ensures p.Growing? && p.faults.grow ==>
              HalfDone(dev, Leaving(Returned(-ENOMEM)), before, last)
    ensures p.Growing? && !p.faults.grow && !EndsCommand(p.piece, |p.piece|) ==>
              HalfDone(dev.(log := dev.log.(pending := dev.log.pending + p.piece)), Leaving(Returned(|p.piece|)),
                       before, last)
    ensures p.Resetting? ==>
              HalfDone(dev.(log := dev.log.(pending := [])),
                       Leaving(Returned(if p.faults.reset then -ENOMEM else |p.piece|)), before, last)
  {
    hide Accepted, LastTen;
    if p.Growing? || p.Resetting? {
      assert EndsCommand(p.piece, |p.piece|) == EndsCommand(p.buf, Accepted(p.buf));
    }
  }

  /** The steps of the holder. */
  lemma InsideStep(s: System, i: nat, call: Call)
    requires Linear(s) && i < |s.threads| && Inside(s.threads[i])
    ensures Linear(Step(s, i, call))
  {
    hide Replay, Outcomes, Accepted, LastTen, OutcomeOf, Exclusive, EndsCommand, FaultyWrite, SlotAfter;
    var t := Step(s, i, call);
    IsExclusive(s, i);
    LastApplied(s.order);
    HalfStep(s.dev, s.threads[i], Replay(s.order[..|s.order|-1]), s.order[|s.order|-1]);
    MoveKeepsExclusive(s.threads, s.holder, i, t.threads[i], t.holder);
  }

  lemma LastApplied(order: seq<Admission>)
    requires order != []
    ensures var earlier, last := order[..|order|-1], order[|order|-1];
            && Replay(order) == Apply(Replay(earlier), last.call)
            && Outcomes(order) ==
                 Outcomes(earlier) + [(last.thread, OutcomeOf(Replay(earlier), last.call, last.slot))]
  {
  }

  /** Linearity is kept by every interleaving of steps. */
  lemma {:induction false} RunKeepsLinear(s: System, schedule: Schedule)
    requires Linear(s) && Fits(schedule, |s.threads|)
    ensures Linear(Run(s, schedule))
  {
    hide Linear, Step;
    if schedule != [] {
      var init := schedule[..|schedule|-1];
      var (i, call) := schedule[|schedule|-1];
      RunKeepsLinear(s, init);
      var r := Run(s, init);
      if Inside(r.threads[i]) {
        InsideStep(r, i, call);
      } else {
        OutsideStep(r, i, call);
      }
    }
  }

  lemma StartIsLinear(n: nat)
    ensures Linear(Start(n))
  {
  }

  // ---------------------------------------------------------------- refused calls

  /** The call is turned away, with that result. */
  predicate Effectless(call: Call, outcome: Outcome) {
    TurnedAway(call) && outcome == RefusalOf(call)
  }

  /** Wherever it is run the call returns `outcome` and changes nothing. */
  ghost predicate SameAnywhere(call: Call, outcome: Outcome) {
    && (forall a :: Apply(a, call) == a)
    && (forall a, slot :: OutcomeOf(a, call, slot) == outcome)
  }

  lemma EffectlessAnywhere(call: Call, outcome: Outcome)
    requires Effectless(call, outcome)
    ensures SameAnywhere(call, outcome)
  {
    hide Accepted, EndsCommand, ReadChunk, StaleTarget;
    forall a
      ensures Apply(a, call) == a
    {
      assert call.WriteCall? ==> Apply(a, call) == Atomic(a.log, a.out);
    }
  }

  lemma {:induction false} RunRefuses(n: nat, schedule: Schedule)
    requires Fits(schedule, n)
    ensures forall k :: 0 <= k < |Run(Start(n), schedule).refused| ==>
              Effectless(Run(Start(n), schedule).refused[k].1, Run(Start(n), schedule).refused[k].2)
  {
    hide Accepted, EndsCommand, OutcomeOf, TurnedAway, RefusalOf, Put;
    if schedule != [] {
      RunRefuses(n, schedule[..|schedule|-1]);
      var (i, call) := schedule[|schedule|-1];
      RefusedStep(Run(Start(n), schedule[..|schedule|-1]), i, call);
    }
  }

  lemma RefusedStep(s: System, i: nat, call: Call)
    requires i < |s.threads|
    ensures var t := Step(s, i, call);
            || t.refused == s.refused
            || (exists c :: TurnedAway(c) && t.refused == s.refused + [(i, c, RefusalOf(c))])
  {
    hide Accepted, EndsCommand, OutcomeOf, TurnedAway, RefusalOf;
  }

  // ---------------------------------------------------------------- each thread's own order

  /** The calls of thread `i` among those started, admitted and refused. */
  function StartedBy(started: seq<(nat, Call)>, i: nat): seq<Call> {
    if started == [] then []
    else
      var (j, call) := started[|started|-1];
      StartedBy(started[..|started|-1], i) + if j == i then [call] else []
  }

  function AdmittedBy(order: seq<Admission>, i: nat): seq<Call> {
    if order == [] then []
    else
      var last := order[|order|-1];
      AdmittedBy(order[..|order|-1], i) + if last.thread == i then [last.call] else []
  }

  function RefusedBy(refused: seq<(nat, Call, Outcome)>, i: nat): seq<Call> {
    if refused == [] then []
    else
      var (j, call, _) := refused[|refused|-1];
      RefusedBy(refused[..|refused|-1], i) + if j == i then [call] else []
  }

  /** Those of `calls` that are turned away, or those that are not. */
  function Select(calls: seq<Call>, away: bool): seq<Call> {
    if calls == [] then []
    else
      var last := calls[|calls|-1];
      Select(calls[..|calls|-1], away) + if TurnedAway(last) == away then [last] else []
  }

  /** The call a thread has started and not yet been admitted with. */
  function Preparing(p: Place): seq<Call> {
    match p
    case Copying(c) => [c]
    case Scanning(buf, faults, _) => [WriteCall(buf, faults)]
    case Waiting(c, _, _) => [c]
    case _ => []
  }

  /** The calls of thread `i` that are turned away are refused, and the others
      admitted, in the order it started them, but for one in preparation. */
  predicate InOrder(s: System, i: nat)
    requires i < |s.threads|
  {
    var started, now := StartedBy(s.started, i), Preparing(s.threads[i]);
    && Select(started, false) == AdmittedBy(s.order, i) + Select(now, false)
    && Select(started, true) == RefusedBy(s.refused, i) + Select(now, true)
  }

  lemma StartedSnoc(started: seq<(nat, Call)>, j: nat, call: Call, i: nat)
    ensures StartedBy(started + [(j, call)], i) == StartedBy(started, i) + if j == i then [call] else []
  {
    assert (started + [(j, call)])[..|started|] == started;
  }

  lemma AdmittedSnoc(order: seq<Admission>, last: Admission, i: nat)
    ensures AdmittedBy(order + [last], i) == AdmittedBy(order, i) + if last.thread == i then [last.call] else []
  {
    assert (order + [last])[..|order|] == order;
  }

  lemma RefusedSnoc(refused: seq<(nat, Call, Outcome)>, j: nat, call: Call, outcome: Outcome, i: nat)
    ensures RefusedBy(refused + [(j, call, outcome)], i) == RefusedBy(refused, i) + if j == i then [call] else []
  {
    assert (refused + [(j, call, outcome)])[..|refused|] == refused;
  }

  lemma SelectSnoc(calls: seq<Call>, call: Call, away: bool)
    ensures Select(calls + [call], away) == Select(calls, away) + if TurnedAway(call) == away then [call] else []
    ensures Select([call], away) == (if TurnedAway(call) == away then [call] else []) && Select([], away) == []
  {
    assert (calls + [call])[..|calls|] == calls;
    assert [call][..0] == [];
  }

  /** What a step of thread `i` does to its place and to the lists. */
  lemma StepShape(s: System, i: nat, call: Call)
    requires i < |s.threads| && PlaceOk(s.threads[i])
    ensures var t, p := Step(s, i, call), s.threads[i];
            && (p.Idle? ==>
                  && t.started == s.started + [(i, call)] && t.order == s.order && t.refused == s.refused
                  && Preparing(t.threads[i]) == [call])
            && (p.Copying? && TurnedAway(p.call) ==>
                  && t.refused == s.refused + [(i, p.call, RefusalOf(p.call))]
                  && t.started == s.started && t.order == s.order && Preparing(t.threads[i]) == [])
            && (p.Waiting? && s.holder.None? ==>
                  && t.order == s.order + [Admission(i, p.call, p.slot)] && !TurnedAway(p.call)
                  && t.started == s.started && t.refused == s.refused && Preparing(t.threads[i]) == [])
            && (!p.Idle? && !(p.Copying? && TurnedAway(p.call)) && !(p.Waiting? && s.holder.None?) ==>
                  && t.started == s.started && t.order == s.order && t.refused == s.refused
                  && Preparing(t.threads[i]) == Preparing(p))
            && (forall j :: 0 <= j < |s.threads| && j != i ==> t.threads[j] == s.threads[j])
  {
    hide Accepted, OutcomeOf, RefusalOf, TurnedAway, LastTen;
  }

  lemma StepKeepsOrder(s: System, i: nat, call: Call, j: nat)
    requires i < |s.threads| && PlaceOk(s.threads[i]) && j < |s.threads| && InOrder(s, j)
    ensures InOrder(Step(s, i, call), j)
  {
    hide Step, TurnedAway, RefusalOf, StartedBy, AdmittedBy, RefusedBy, Select, Preparing, PlaceOk;
    StepShape(s, i, call);
    var p, started := s.threads[i], StartedBy(s.started, j);
    assert forall calls: seq<Call> :: calls + [] == calls;
    if p.Idle? {
      StartedSnoc(s.started, i, call, j);
      SelectSnoc(started, call, false);
      SelectSnoc(started, call, true);
      IdlePrepares(p);
    } else if p.Copying? && TurnedAway(p.call) {
      RefusedSnoc(s.refused, i, p.call, RefusalOf(p.call), j);
      SelectSnoc([], p.call, false);
      SelectSnoc([], p.call, true);
      CallPrepares(p);
    } else if p.Waiting? && s.holder.None? {
      AdmittedSnoc(s.order, Admission(i, p.call, p.slot), j);
      SelectSnoc([], p.call, false);
      SelectSnoc([], p.call, true);
      CallPrepares(p);
    }
  }

  lemma IdlePrepares(p: Place)
    requires p.Idle?
    ensures Preparing(p) == []
  {
  }

  lemma CallPrepares(p: Place)
    requires p.Copying? || p.Waiting?
    ensures Preparing(p) == [p.call]
  {
  }

  /** In every run each thread's calls take effect in the order it started them. */
  lemma {:induction false} ProgramOrder(n: nat, schedule: Schedule, i: nat)
    requires Fits(schedule, n) && i < n
    ensures InOrder(Run(Start(n), schedule), i)
  {
    hide Step, Linear, PlaceOk;
    if schedule == [] {
      assert Start(n).threads[i] == Idle;
    } else {
      var init := schedule[..|schedule|-1];
      var (j, call) := schedule[|schedule|-1];
      hide InOrder;
      ProgramOrder(n, init, i);
      StartIsLinear(n);
      RunKeepsLinear(Start(n), init);
      LinearPlace(Run(Start(n), init), j);
      StepKeepsOrder(Run(Start(n), init), j, call, i);
    }
  }

  lemma LinearPlace(s: System, i: nat)
    requires Linear(s) && i < |s.threads|
    ensures PlaceOk(s.threads[i])
  {
  }

  // ---------------------------------------------------------------- real time

  lemma RunSnoc(s: System, schedule: Schedule, i: nat, call: Call)
    requires Fits(schedule, |s.threads|) && i < |s.threads|
    ensures Fits(schedule + [(i, call)], |s.threads|)
    ensures Run(s, schedule + [(i, call)]) == Step(Run(s, schedule), i, call)
  {
    assert (schedule + [(i, call)])[..|schedule|] == schedule;
  }

  lemma {:induction false} RunConcat(s: System, first: Schedule, rest: Schedule)
    requires Fits(first, |s.threads|) && Fits(rest, |s.threads|)
    ensures Fits(first + rest, |s.threads|) && Run(s, first + rest) == Run(Run(s, first), rest)
  {
    hide Step, Run;
    if rest == [] {
      assert first + rest == first;
      RunNothing(Run(s, first));
    } else {
      var init, last := rest[..|rest|-1], rest[|rest|-1];
      Snoc(rest);
      Assoc(first, init, [last]);
      RunConcat(s, first, init);
      RunSnoc(s, first + init, last.0, last.1);
      RunSnoc(Run(s, first), init, last.0, last.1);
    }
  }

  lemma RunNothing(s: System)
    ensures Run(s, []) == s
  {
  }

  /** Going on only adds to the order: a call that got the semaphore comes before
      every one that is started later. */
  lemma {:induction false} OrderOnlyGrows(s: System, schedule: Schedule)
    requires Fits(schedule, |s.threads|)
    ensures s.order <= Run(s, schedule).order && s.outcomes <= Run(s, schedule).outcomes
    ensures s.started <= Run(s, schedule).started
  {
    hide Step;
    if schedule != [] {
      OrderOnlyGrows(s, schedule[..|schedule|-1]);
      ListsGrow(Run(s, schedule[..|schedule|-1]), schedule[|schedule|-1].0, schedule[|schedule|-1].1);
    }
  }

  lemma ListsGrow(s: System, i: nat, call: Call)
    requires i < |s.threads|
    ensures var t := Step(s, i, call);
            s.order <= t.order && s.outcomes <= t.outcomes && s.started <= t.started
  {
    hide Accepted, OutcomeOf, RefusalOf, TurnedAway, LastTen;
  }

  // ---------------------------------------------------------------- linearizability

  /** Linearizability: after any interleaving of any number of threads, at most
      one is inside; whenever none is, the device is the split of the bytes
      accepted by the calls in the order they got the semaphore, and each thread
      was returned what its call returns when they run one after the other, a
      seek request adding up from the slot it has read. The calls that failed
      before that returned what they would return at any place in the order, and
      would change nothing there. Each thread's calls are in the order it started
      them. */
  lemma Linearizable(n: nat, schedule: Schedule)
    requires Fits(schedule, n)
    ensures var s := Run(Start(n), schedule);
            && (forall i, j :: 0 <= i < n && 0 <= j < n && Inside(s.threads[i]) && Inside(s.threads[j]) ==> i == j)
            && (s.holder.None? ==>
                  && s.dev.log == Of(AcceptedBytes(s.order))
                  && s.dev.out == OldestSlot(|Lines(AcceptedBytes(s.order))|)
                  && s.outcomes == Outcomes(s.order))
            && (forall k :: 0 <= k < |s.refused| ==> SameAnywhere(s.refused[k].1, s.refused[k].2))
            && (forall i :: 0 <= i < n ==> InOrder(s, i))
  {
    hide Run, Replay, Outcomes, AcceptedBytes, PlaceOk, HalfDone, Of, Effectless, SameAnywhere, InOrder;
    StartIsLinear(n);
    RunKeepsLinear(Start(n), schedule);
    RunRefuses(n, schedule);
    var s := Run(Start(n), schedule);
    ReplayIsHistory(s.order);
    forall k | 0 <= k < |s.refused|
      ensures SameAnywhere(s.refused[k].1, s.refused[k].2)
    {
      EffectlessAnywhere(s.refused[k].1, s.refused[k].2);
    }
    forall i | 0 <= i < n
      ensures InOrder(s, i)
    {
      ProgramOrder(n, schedule, i);
    }
  }

  // ---------------------------------------------------------------- release

  /** How many own steps a thread inside needs to leave. */
  function StepsLeft(p: Place): nat {
    match p
    case Growing(_, _, _) => 4
    case Committing(_, _, _) => 3
    case Resetting(_, _, _) => 2
    case Looking(_, _) => 2
    case Leaving(_) => 1
    case _ => 0
  }

  /** How often thread `h` is scheduled. */
  function Turns(schedule: Schedule, h: nat): nat {
    if schedule == [] then 0
    else Turns(schedule[..|schedule|-1], h) + if schedule[|schedule|-1].0 == h then 1 else 0
  }

  /** A step of the holder brings it closer to leaving; a step of another thread
      does not touch it. */
  lemma HolderStep(s: System, h: nat, i: nat, call: Call)
    requires Linear(s) && s.holder == Some(h) && i < |s.threads|
    ensures var t := Step(s, i, call);
            t.holder.Some? ==>
              && t.holder == Some(h)
              && StepsLeft(t.threads[h]) + (if i == h then 1 else 0) <= StepsLeft(s.threads[h])
  {
    hide Settled, Unsettled, OutcomeOf, LastTen, PlaceOk;
    IsExclusive(s, i);
  }

  /** Nothing the other threads do delays the holder or takes the semaphore
      from it. */
  lemma {:induction false} HeldSoFar(s: System, h: nat, schedule: Schedule)
    requires Linear(s) && Fits(schedule, |s.threads|) && s.holder == Some(h)
    requires forall k :: 0 <= k <= |schedule| ==> Run(s, schedule[..k]).holder.Some?
    ensures Run(s, schedule).holder == Some(h) && h < |s.threads|
    ensures StepsLeft(Run(s, schedule).threads[h]) + Turns(schedule, h) <= StepsLeft(s.threads[h])
  {
    hide StepsLeft, Step, Settled, Unsettled;
    assert schedule[..|schedule|] == schedule;
    if schedule != [] {
      var init := schedule[..|schedule|-1];
      var (i, call) := schedule[|schedule|-1];
      forall k | 0 <= k <= |init|
        ensures Run(s, init[..k]).holder.Some?
      {
        assert init[..k] == schedule[..k];
      }
      HeldSoFar(s, h, init);
      RunKeepsLinear(s, init);
      HolderStep(Run(s, init), h, i, call);
    }
  }

  /** Whatever path its call takes, a thread that got the semaphore releases it
      by its fourth step: a stretch of a run in which the semaphore is never
      free holds at most three steps of the thread that has it. */
  lemma AlwaysReleased(s: System, h: nat, schedule: Schedule)
    requires Linear(s) && Fits(schedule, |s.threads|) && s.holder == Some(h)
    requires forall k :: 0 <= k <= |schedule| ==> Run(s, schedule[..k]).holder.Some?
    ensures Turns(schedule, h) < StepsLeft(s.threads[h]) <= 4
  {
    hide Settled, Unsettled;
    HeldSoFar(s, h, schedule);
    RunKeepsLinear(s, schedule);
    IsExclusive(Run(s, schedule), h);
  }
}
