/** Seek requests under concurrent callers (main.c): aesd_ioctl reads the slot of
    the oldest command before it takes the semaphore, so that writers may move it
    before the sum is taken. What is then added up, when it is what was asked
    for, and a run in which it is not. */
module StaleSeeks {
  import opened ByteStream
  import opened CommandLog
  import opened SemaphoreRuns

  // ---------------------------------------------------------------- what seek requests add up

  /** The slot was that of the oldest command after some of the calls. */
  predicate SlotKnown(order: seq<Admission>, slot: nat) {
    exists m :: 0 <= m <= |order| && slot == Replay(order[..m]).out
  }

  predicate SlotsOk(s: System) {
    && (forall i :: 0 <= i < |s.threads| && s.threads[i].Waiting? ==> SlotKnown(s.order, s.threads[i].slot))
    && (forall k :: 0 <= k < |s.order| ==> SlotKnown(s.order[..k], s.order[k].slot) && !TurnedAway(s.order[k].call))
  }

  lemma SlotNowKnown(s: System)
    requires Linear(s)
    ensures SlotKnown(s.order, s.dev.out) && SlotKnown(s.order, 0)
  {
    hide OutcomeOf, FaultyWrite, LastTen, Accepted, EndsCommand, PlaceOk, Outcomes;
    assert s.order[..|s.order|] == s.order;
    assert Replay(s.order[..0]).out == 0;
    if s.holder.Some? {
      LastApplied(s.order);
      var earlier := s.order[..|s.order|-1];
      CommitMoves(s.dev, s.threads[s.holder.value], Replay(earlier), s.order[|s.order|-1]);
      assert s.dev.out == Replay(earlier).out || s.dev.out == Replay(s.order).out;
    }
  }

  /** The holder has moved the slot of the oldest command as its call does, or
      not yet. */
  lemma CommitMoves(dev: Atomic, p: Place, before: Atomic, last: Admission)
    requires PlaceOk(p) && HalfDone(dev, p, before, last)
    ensures dev.out == before.out || dev.out == Apply(before, last.call).out
  {
    hide Accepted, LastTen, OutcomeOf;
    if p.Resetting? {
      assert EndsCommand(p.piece, |p.piece|) == EndsCommand(p.buf, Accepted(p.buf));
    }
  }

  lemma SlotStaysKnown(order: seq<Admission>, last: Admission, slot: nat)
    requires SlotKnown(order, slot)
    ensures SlotKnown(order + [last], slot)
  {
    hide Replay;
    var m :| 0 <= m <= |order| && slot == Replay(order[..m]).out;
    assert (order + [last])[..m] == order[..m];
  }

  lemma StepKeepsSlots(s: System, i: nat, call: Call)
    requires Linear(s) && SlotsOk(s) && i < |s.threads|
    ensures SlotsOk(Step(s, i, call))
  {
    hide Step, SlotKnown, Linear, PlaceOk, Preparing, TurnedAway, RefusalOf;
    var t := Step(s, i, call);
    LinearPlace(s, i);
    SlotNowKnown(s);
    StepShape(s, i, call);
    SlotShape(s, i, call);
    forall k | 0 <= k < |t.order|
      ensures SlotKnown(t.order[..k], t.order[k].slot) && !TurnedAway(t.order[k].call)
    {
      if k < |s.order| {
        assert t.order[..k] == s.order[..k];
      } else {
        assert t.order[..k] == s.order;
      }
    }
    forall j | 0 <= j < |t.threads| && t.threads[j].Waiting?
      ensures SlotKnown(t.order, t.threads[j].slot)
    {
      if t.order != s.order && j != i {
        SlotStaysKnown(s.order, t.order[|s.order|], t.threads[j].slot);
      }
    }
  }

  /** The slot a thread waits with is the one it read, and the order only gains
      a thread that waited. */
  lemma SlotShape(s: System, i: nat, call: Call)
    requires i < |s.threads|
    ensures var t, p := Step(s, i, call), s.threads[i];
            && (t.threads[i].Waiting? ==>
                  || t.threads[i].slot in {0, s.dev.out} || (p.Waiting? && t.threads[i].slot == p.slot))
            && (t.order != s.order ==> p.Waiting? && s.holder.None? && !t.threads[i].Waiting?)
  {
    hide Accepted, OutcomeOf, RefusalOf, TurnedAway, LastTen;
  }

  lemma {:induction false} RunKeepsSlots(n: nat, schedule: Schedule)
    requires Fits(schedule, n)
    ensures SlotsOk(Run(Start(n), schedule))
  {
    hide Step, Linear, SlotKnown, SlotsOk;
    if schedule == [] {
      NoSlots(n);
    } else {
      var init := schedule[..|schedule|-1];
      RunKeepsSlots(n, init);
      StartIsLinear(n);
      RunKeepsLinear(Start(n), init);
      StepKeepsSlots(Run(Start(n), init), schedule[|schedule|-1].0, schedule[|schedule|-1].1);
    }
  }

  lemma NoSlots(n: nat)
    ensures SlotsOk(Start(n))
  {
  }

  /** How many commands had been stored after the first `m` calls. */
  function StoredAfter(order: seq<Admission>, m: nat): nat
    requires m <= |order|
  {
    |Lines(AcceptedBytes(order[..m]))|
  }

  lemma {:induction false} StoredGrows(order: seq<Admission>, m: nat, k: nat)
    requires m <= k <= |order|
    ensures StoredAfter(order, m) <= StoredAfter(order, k)
    decreases k - m
  {
    hide Lines, Taken;
    if m < k {
      StoredGrows(order, m, k - 1);
      var more := order[..k];
      assert more[..|more|-1] == order[..k-1];
      var bytes := AcceptedBytes(order[..k-1]);
      LinesGrow(bytes, if order[k-1].call.WriteCall? then Taken(order[k-1].call.buf, order[k-1].call.faults) else []);
    }
  }

  /** What every seek request of every run adds up. It read the slot after the
      first `m` of the calls that came before it in the order; what was evicted
      since, modulo ten, is by how much it lags behind, and the sum is the one of
      a walk that starts so many slots before the oldest command. It is the
      position asked for if and only if nothing lags or the walk skips as many
      bytes as it meets too early. */
  lemma SeekSums(n: nat, schedule: Schedule, k: nat) returns (m: nat)
    requires Fits(schedule, n)
    requires var s := Run(Start(n), schedule); s.holder.None? && k < |s.order| && s.order[k].call.SumCall?
    ensures m <= k && SummedFrom(Run(Start(n), schedule), k, m)
  {
    hide Run, Replay, Outcomes, SlotKnown, SummedFrom;
    var s := Run(Start(n), schedule);
    StartIsLinear(n);
    RunKeepsLinear(Start(n), schedule);
    RunKeepsSlots(n, schedule);
    m := SlotReadAt(s.order, k);
    SumIsStale(s, k, m);
  }

  /** Seek request `k`, started from the slot as it was after `m` calls. */
  predicate SummedFrom(s: System, k: nat, m: nat)
    requires m <= k < |s.order|
  {
    var lines, call := Of(AcceptedBytes(s.order[..k])).lines, s.order[k].call;
    var lag := (Evicted(StoredAfter(s.order, k)) - Evicted(StoredAfter(s.order, m))) % CAPACITY;
    && call.SumCall? && call.cmd < CAPACITY && k < |s.outcomes|
    && s.outcomes[k] == (s.order[k].thread, Returned(StaleTarget(lines, lag, call.cmd, call.offset)))
    && (StaleTarget(lines, lag, call.cmd, call.offset) == IoctlTarget(lines, call.cmd, call.offset)
        <==> call.cmd == CAPACITY - 1 || lag == 0 || SkipsWhatItMeets(lines, lag, call.cmd))
  }

  lemma SlotReadAt(order: seq<Admission>, k: nat) returns (m: nat)
    requires k < |order| && SlotKnown(order[..k], order[k].slot)
    ensures m <= k && order[k].slot == Replay(order[..m]).out
  {
    hide Replay;
    m :| 0 <= m <= k && order[k].slot == Replay(order[..k][..m]).out;
    assert order[..k][..m] == order[..m];
  }

  lemma SumIsStale(s: System, k: nat, m: nat)
    requires m <= k < |s.order| && s.outcomes == Outcomes(s.order)
    requires s.order[k].call.SumCall? && !TurnedAway(s.order[k].call)
    requires s.order[k].slot == Replay(s.order[..m]).out
    ensures SummedFrom(s, k, m)
  {
    hide AcceptedBytes, Replay, Outcomes, StaleTarget, SkipsWhatItMeets, Lines, Tail, IoctlTarget, Lag, Evicted;
    hide OldestSlot;
    var order, call := s.order, s.order[k].call;
    OutcomeAt(order, k);
    ReplayIsHistory(order[..k]);
    ReplayIsHistory(order[..m]);
    StoredGrows(order, m, k);
    LagCounts(StoredAfter(order, m), StoredAfter(order, k));
    var lag := (Evicted(StoredAfter(order, k)) - Evicted(StoredAfter(order, m))) % CAPACITY;
    NoLagUntilFull(Lines(AcceptedBytes(order[..k])), StoredAfter(order, m));
    StaleTargetRight(Of(AcceptedBytes(order[..k])).lines, lag, call.cmd, call.offset);
  }

  lemma NoLagUntilFull(lines: seq<Bytes>, earlier: nat)
    requires earlier <= |lines|
    ensures |LastTen(lines)| <= CAPACITY
    ensures (Evicted(|lines|) - Evicted(earlier)) % CAPACITY > 0 ==> |LastTen(lines)| == CAPACITY
  {
  }

  lemma StaleTargetRight(lines: seq<Bytes>, lag: nat, cmd: nat, offset: nat)
    requires lag < CAPACITY && cmd < CAPACITY && |lines| <= CAPACITY && (lag > 0 ==> |lines| == CAPACITY)
    ensures StaleTarget(lines, lag, cmd, offset) == IoctlTarget(lines, cmd, offset)
            <==> cmd == CAPACITY - 1 || lag == 0 || SkipsWhatItMeets(lines, lag, cmd)
  {
    hide SkipsWhatItMeets, WalkSum, Before;
    if cmd < CAPACITY - 1 {
      StaleTargetIff(lines, lag, cmd, offset);
    }
  }

  // ---------------------------------------------------------------- a seek request that misses

  /** Thread `i` alone scans its line up to the newline. */
  lemma {:induction false} ScanAlone(s: System, i: nat, line: Bytes, k: nat) returns (schedule: Schedule)
    requires i < |s.threads| && s.threads[i] == Scanning(line, NO_FAULTS, 0)
    requires IsLine(line) && k < |line|
    ensures Fits(schedule, |s.threads|) && Run(s, schedule) == Move(s, i, Scanning(line, NO_FAULTS, k))
  {
    hide Run, Accepted;
    if k == 0 {
      schedule := [];
      RunNothing(s);
      assert s.threads[i := s.threads[i]] == s.threads;
    } else {
      var init := ScanAlone(s, i, line, k - 1);
      RunSnoc(s, init, i, LengthCall);
      schedule := init + [(i, LengthCall)];
      assert line[k-1] == line[..|line|-1][k-1];
      var p := Scanning(line, NO_FAULTS, k);
      assert s.threads[i := Scanning(line, NO_FAULTS, k - 1)][i := p] == s.threads[i := p];
    }
  }

  lemma InsideShape(s: System, i: nat, call: Call)
    requires i < |s.threads| && Inside(s.threads[i])
    ensures var t := Step(s, i, call);
            && t.order == s.order && t.threads == s.threads[i := t.threads[i]]
            && (if s.threads[i].Leaving? then t.threads[i] == Idle && t.holder.None?
                else Inside(t.threads[i]) && StepsLeft(t.threads[i]) < StepsLeft(s.threads[i]))
  {
    hide Accepted, OutcomeOf, LastTen;
  }

  /** A thread inside that moves alone leaves. */
  lemma {:induction false} LeaveAlone(s: System, i: nat) returns (schedule: Schedule)
    requires i < |s.threads| && Inside(s.threads[i])
    ensures Fits(schedule, |s.threads|)
    ensures var t := Run(s, schedule); t.threads == s.threads[i := Idle] && t.holder.None? && t.order == s.order
    decreases StepsLeft(s.threads[i])
  {
    hide Run, Step, Inside;
    var t := Step(s, i, LengthCall);
    InsideShape(s, i, LengthCall);
    RunNothing(s);
    RunSnoc(s, [], i, LengthCall);
    schedule := [] + [(i, LengthCall)];
    if !s.threads[i].Leaving? {
      var rest := LeaveAlone(t, i);
      RunConcat(s, schedule, rest);
      schedule := schedule + rest;
    }
  }

  lemma EnterShape(s: System, i: nat, call: Call)
    requires i < |s.threads| && s.threads[i].Waiting? && s.holder.None?
    ensures var t, p := Step(s, i, call), s.threads[i];
            && t.order == s.order + [Admission(i, p.call, p.slot)]
            && t.threads == s.threads[i := t.threads[i]] && Inside(t.threads[i])
  {
  }

  /** A waiting thread that moves alone gets its call done. */
  lemma CallAlone(s: System, i: nat) returns (schedule: Schedule)
    requires i < |s.threads| && s.threads[i].Waiting? && s.holder.None?
    ensures Fits(schedule, |s.threads|)
    ensures var t, p := Run(s, schedule), s.threads[i];
            && t.threads == s.threads[i := Idle] && t.holder.None?
            && t.order == s.order + [Admission(i, p.call, p.slot)]
  {
    hide Run, Step, Inside;
    var t := Step(s, i, LengthCall);
    EnterShape(s, i, LengthCall);
    RunNothing(s);
    RunSnoc(s, [], i, LengthCall);
    var rest := LeaveAlone(t, i);
    RunConcat(s, [] + [(i, LengthCall)], rest);
    schedule := [] + [(i, LengthCall)] + rest;
    assert s.threads[i := t.threads[i]][i := Idle] == s.threads[i := Idle];
  }

  /** Thread `i` prepares the write of a line. */
  lemma PrepareAlone(s: System, i: nat, line: Bytes) returns (schedule: Schedule)
    requires i < |s.threads| && s.threads[i] == Idle && IsLine(line)
    ensures Fits(schedule, |s.threads|)
    ensures var t := Run(s, schedule);
            && t.threads == s.threads[i := Waiting(WriteCall(line, NO_FAULTS), line, 0)]
            && t.holder == s.holder && t.order == s.order
  {
    hide Run, Accepted;
    var call := WriteCall(line, NO_FAULTS);
    var s1 := Step(s, i, call);
    var s2 := Step(s1, i, call);
    assert s2.threads[i] == Scanning(line, NO_FAULTS, 0);
    RunNothing(s);
    RunSnoc(s, [], i, call);
    RunSnoc(s, [] + [(i, call)], i, call);
    var begin := [] + [(i, call)] + [(i, call)];
    var scan := ScanAlone(s2, i, line, |line| - 1);
    RunConcat(s, begin, scan);
    RunSnoc(s, begin + scan, i, call);
    schedule := begin + scan + [(i, call)];
    assert line[..|line|-1+1] == line;
  }

  /** Thread `i` writes a line while nobody else moves. */
  lemma WriteAlone(s: System, i: nat, line: Bytes) returns (schedule: Schedule)
    requires i < |s.threads| && s.threads[i] == Idle && s.holder.None? && IsLine(line)
    ensures Fits(schedule, |s.threads|)
    ensures var t := Run(s, schedule);
            && t.threads == s.threads && t.holder.None?
            && t.order == s.order + [Admission(i, WriteCall(line, NO_FAULTS), 0)]
  {
    hide Run;
    var first := PrepareAlone(s, i, line);
    var rest := CallAlone(Run(s, first), i);
    RunConcat(s, first, rest);
    schedule := first + rest;
  }

  lemma {:induction false} WritesAlone(s: System, i: nat, lines: seq<Bytes>) returns (schedule: Schedule)
    requires i < |s.threads| && s.threads[i] == Idle && s.holder.None? && AllLines(lines)
    ensures Fits(schedule, |s.threads|)
    ensures var t := Run(s, schedule);
            && t.threads == s.threads && t.holder.None?
            && AcceptedBytes(t.order) == AcceptedBytes(s.order) + Flatten(lines)
  {
    hide Run, Flatten, AcceptedBytes, IsLine;
    if lines == [] {
      schedule := [];
      RunNothing(s);
      FlattenNone();
      assert AcceptedBytes(s.order) + [] == AcceptedBytes(s.order);
    } else {
      var init, line := lines[..|lines|-1], lines[|lines|-1];
      var first := WritesAlone(s, i, init);
      var t := Run(s, first);
      var rest := WriteAlone(t, i, line);
      RunConcat(s, first, rest);
      schedule := first + rest;
      AcceptedLine(t.order, i, line);
      Snoc(lines);
      FlattenSnoc(init, line);
      Assoc(AcceptedBytes(s.order), Flatten(init), line);
    }
  }

  lemma AcceptedLine(order: seq<Admission>, i: nat, line: Bytes)
    requires IsLine(line)
    ensures AcceptedBytes(order + [Admission(i, WriteCall(line, NO_FAULTS), 0)]) == AcceptedBytes(order) + line
  {
    LineIsAcceptedWhole(line);
    assert (order + [Admission(i, WriteCall(line, NO_FAULTS), 0)])[..|order|] == order;
    assert line[..|line|] == line;
  }

  /** A thread begins a seek request and reads the slot of the oldest command. */
  lemma SeekBegins(s: System, i: nat, call: Call) returns (schedule: Schedule)
    requires i < |s.threads| && s.threads[i] == Idle && call.SumCall? && !TurnedAway(call)
    ensures Fits(schedule, |s.threads|)
    ensures var t := Run(s, schedule);
            && t.threads == s.threads[i := Waiting(call, [], s.dev.out)]
            && t.holder == s.holder && t.order == s.order
  {
    hide Run;
    RunNothing(s);
    RunSnoc(s, [], i, call);
    RunSnoc(s, [] + [(i, call)], i, call);
    schedule := [] + [(i, call)] + [(i, call)];
  }

  /** It does go wrong. For any ten commands, any command from 1 to 8 and any new
      command of another length than the one asked for, there is a run of two
      threads in which the seek request begins when the ten are stored, the new
      one is stored before the request gets the semaphore, and the sum is not the
      position of the command asked for. */
  lemma StaleSeekMisses(lines: seq<Bytes>, command: Bytes, cmd: nat, offset: nat)
    returns (schedule: Schedule, sum: int)
    requires AllLines(lines) && |lines| == CAPACITY && IsLine(command)
    requires 0 < cmd < CAPACITY - 1 && |command| != |lines[cmd]|
    ensures Fits(schedule, 2)
    ensures var s := Run(Start(2), schedule);
            && s.holder.None? && s.dev.log == Log(LastTen(lines + [command]), [])
            && s.outcomes != [] && s.outcomes[|s.outcomes|-1] == (1, Returned(sum))
            && sum != IoctlTarget(s.dev.log.lines, cmd, offset)
  {
    hide Run, Start, AcceptedBytes, Linear, IsLine, StaleTarget, IoctlTarget, LastTen, Lag;
    var call := SumCall(cmd, offset, false);
    var s0 := Start(2);
    TwoIdle();
    StartIsLinear(2);
    var filling := WritesAlone(s0, 0, lines);
    var s1 := Run(s0, filling);
    RunKeepsLinear(s0, filling);
    var begin := SeekBegins(s1, 1, call);
    var s2 := Run(s1, begin);
    RunKeepsLinear(s1, begin);
    var storing := WriteAlone(s2, 0, command);
    var s3 := Run(s2, storing);
    RunKeepsLinear(s2, storing);
    var ending := CallAlone(s3, 1);
    var s4 := Run(s3, ending);
    RunKeepsLinear(s3, ending);
    RunConcat(s0, filling, begin);
    RunConcat(s0, filling + begin, storing);
    RunConcat(s0, filling + begin + storing, ending);
    schedule := filling + begin + storing + ending;
    AcceptedLine(s2.order, 0, command);
    StaleSum(s1, s3, s4, lines, command, cmd, offset);
    sum := s4.outcomes[|s4.outcomes|-1].1.value;
  }

  lemma TwoIdle()
    ensures Start(2).threads == [Idle, Idle] && Start(2).holder.None? && AcceptedBytes(Start(2).order) == []
  {
  }

  lemma StaleSum(s1: System, s3: System, s4: System, lines: seq<Bytes>, command: Bytes, cmd: nat, offset: nat)
    requires AllLines(lines) && |lines| == CAPACITY && IsLine(command)
    requires 0 < cmd < CAPACITY - 1 && |command| != |lines[cmd]|
    requires Linear(s1) && Linear(s3) && Linear(s4) && s1.holder.None? && s3.holder.None? && s4.holder.None?
    requires AcceptedBytes(s1.order) == [] + Flatten(lines)
    requires AcceptedBytes(s3.order) == AcceptedBytes(s1.order) + command
    requires s4.order == s3.order + [Admission(1, SumCall(cmd, offset, false), s1.dev.out)]
    ensures s4.dev.log == Log(LastTen(lines + [command]), [])
    ensures var sum := s4.outcomes[|s4.outcomes|-1];
            && s4.outcomes != [] && sum.0 == 1 && sum.1.Returned?
            && sum.1.value != IoctlTarget(s4.dev.log.lines, cmd, offset)
  {
    hide AcceptedBytes, Lines, Tail, Flatten, IsLine, StaleTarget, IoctlTarget, Exclusive, Replay, Outcomes;
    hide HalfDone, LastTen;
    var all := Flatten(lines);
    SplitUnique(lines, []);
    assert [] + all == all && all + [] == all && [] + command == command;
    AppendLine(all, command);
    ReplayIsHistory(s1.order);
    ReplayIsHistory(s3.order);
    assert s4.order[..|s4.order|-1] == s3.order;
    LastApplied(s4.order);
    OneCommitBetween(lines, command, 0, cmd, offset);
  }
}
