/** What concurrent callers of the driver get (main.c), in terms of the bytes
    accepted so far, and that every one of them gets something. */
module CallResults {
  import opened ByteStream
  import opened CommandLog
  import opened SemaphoreRuns

  // ---------------------------------------------------------------- results

  /** A run after which nobody is inside, and one of the calls made in it. */
  predicate Settles(n: nat, schedule: Schedule, k: nat) {
    && Fits(schedule, n)
    && var s := Run(Start(n), schedule); s.holder.None? && k < |s.order|
  }

  /** The commands stored by the calls before call `k`, and what it returned. */
  function StoredBefore(s: System, k: nat): seq<Bytes>
    requires k < |s.order|
  {
    LastTen(Lines(AcceptedBytes(s.order[..k])))
  }

  lemma ResultOf(n: nat, schedule: Schedule, k: nat)
    requires Settles(n, schedule, k)
    ensures var s := Run(Start(n), schedule);
            && k < |s.outcomes|
            && Replay(s.order[..k]).log.lines == StoredBefore(s, k)
            && s.outcomes[k] == (s.order[k].thread, OutcomeOf(Replay(s.order[..k]), s.order[k].call, s.order[k].slot))
  {
    hide Run, Replay, Outcomes, OutcomeOf, AcceptedBytes, Lines, Tail, LastTen, Exclusive;
    StartIsLinear(n);
    RunKeepsLinear(Start(n), schedule);
    var s := Run(Start(n), schedule);
    OutcomeAt(s.order, k);
    ReplayIsHistory(s.order[..k]);
  }

  /** In every run each read is given exactly the rest of the command at its
      position, among the last ten that the calls before it stored, or an error
      if copying it fails; it is given nothing if and only if the position is at
      or past their end. */
  lemma ReadReturns(n: nat, schedule: Schedule, k: nat)
    requires Settles(n, schedule, k) && Run(Start(n), schedule).order[k].call.ReadCall?
    ensures var s := Run(Start(n), schedule);
            var lines, thread, call := StoredBefore(s, k), s.order[k].thread, s.order[k].call;
            && k < |s.outcomes|
            && (s.outcomes[k] == (thread, Delivered([])) <==> |Flatten(lines)| <= call.pos)
            && (forall j :: 0 <= j < |lines| && Before(lines, j) <= call.pos < Before(lines, j) + |lines[j]| ==>
                  s.outcomes[k] == (thread, if call.copyFails then Returned(-EFAULT)
                                            else Delivered(lines[j][call.pos - Before(lines, j)..])))
  {
    hide Run, Replay, StoredBefore, Flatten, Before;
    ResultOf(n, schedule, k);
    var s := Run(Start(n), schedule);
    var lines, pos := StoredBefore(s, k), s.order[k].call.pos;
    StoredAreLines(s, k);
    ReadChunkExact(lines, pos);
    forall j | 0 <= j < |lines| && Before(lines, j) <= pos < Before(lines, j) + |lines[j]|
      ensures ReadChunk(lines, pos) == lines[j][pos - Before(lines, j)..] != []
    {
      ReadChunkInLine(lines, pos, j);
    }
  }

  lemma StoredAreLines(s: System, k: nat)
    requires k < |s.order|
    ensures AllLines(StoredBefore(s, k)) && |StoredBefore(s, k)| <= CAPACITY
  {
    SplitExact(AcceptedBytes(s.order[..k]));
  }

  /** Each length query is given the size of those commands. */
  lemma LengthReturns(n: nat, schedule: Schedule, k: nat)
    requires Settles(n, schedule, k) && Run(Start(n), schedule).order[k].call.LengthCall?
    ensures var s := Run(Start(n), schedule);
            k < |s.outcomes| && s.outcomes[k] == (s.order[k].thread, Returned(|Flatten(StoredBefore(s, k))|))
  {
    hide Run, Replay, StoredBefore, Flatten;
    ResultOf(n, schedule, k);
  }

  /** Each write that is not refused is given the number of bytes it added, which
      end with its first newline if it has one, or an error. An error means that
      nothing was added, unless only the last allocation failed. */
  lemma WriteReturns(n: nat, schedule: Schedule, k: nat)
    requires Settles(n, schedule, k) && Run(Start(n), schedule).order[k].call.WriteCall?
    ensures var s := Run(Start(n), schedule);
            var call := s.order[k].call;
            var before, after := AcceptedBytes(s.order[..k]), AcceptedBytes(s.order[..k+1]);
            && k < |s.outcomes| && s.outcomes[k].0 == s.order[k].thread && s.outcomes[k].1.Returned?
            && var r := s.outcomes[k].1.value;
               && (r >= 0 ==> IsCut(call.buf, r) && after == before + call.buf[..r])
               && (r < 0 ==> r == -ENOMEM)
               && (r < 0 <==> call.faults.grow || (call.faults.reset && NEWLINE in call.buf))
               && (call.faults.grow ==> after == before)
               && (!call.faults.grow ==> exists m: nat :: IsCut(call.buf, m) && after == before + call.buf[..m])
  {
    hide Run, Replay, AcceptedBytes, Accepted, IsCut, TurnedAway;
    ResultOf(n, schedule, k);
    AdmittedPass(n, schedule, k);
    var s := Run(Start(n), schedule);
    var buf, faults := s.order[k].call.buf, s.order[k].call.faults;
    AcceptedIsCut(buf);
    EndsIffNewline(buf);
    PassedWrite(buf, faults);
    NextAccepted(s.order, k);
  }

  lemma PassedWrite(buf: Bytes, faults: WriteFaults)
    requires !TurnedAway(WriteCall(buf, faults))
    ensures !faults.scratch && !faults.copy
  {
  }

  lemma NextAccepted(order: seq<Admission>, k: nat)
    requires k < |order|
    ensures var call := order[k].call;
            AcceptedBytes(order[..k+1])
            == AcceptedBytes(order[..k]) + if call.WriteCall? then Taken(call.buf, call.faults) else []
  {
    assert order[..k+1][..k] == order[..k];
  }

  /** A call gets the semaphore or is refused before that: a write is refused
      exactly when its scratch allocation or its user copy fails, a seek request
      exactly when its user copy fails or its command number is ten or more, and
      nothing else ever is; a refusal is the error that names the reason. */
  lemma RefusedOrAdmitted(n: nat, schedule: Schedule)
    requires Fits(schedule, n)
    ensures var s := Run(Start(n), schedule);
            && (forall k :: 0 <= k < |s.order| ==>
                  match s.order[k].call
                  case WriteCall(_, faults) => !faults.scratch && !faults.copy
                  case SumCall(cmd, _, copyFails) => !copyFails && cmd < CAPACITY
                  case _ => true)
            && (forall k :: 0 <= k < |s.refused| ==>
                  match s.refused[k].1
                  case WriteCall(_, faults) =>
                    && (faults.scratch || faults.copy)
                    && s.refused[k].2 == Returned(if faults.scratch then -ENOMEM else -EFAULT)
                  case SumCall(cmd, _, copyFails) =>
                    && (copyFails || cmd >= CAPACITY)
                    && s.refused[k].2 == Returned(if copyFails then -EFAULT else -EINVAL)
                  case _ => false)
  {
    hide Run;
    RunRefuses(n, schedule);
    var s := Run(Start(n), schedule);
    forall k | 0 <= k < |s.order|
      ensures !TurnedAway(s.order[k].call)
    {
      AdmittedPass(n, schedule, k);
    }
    forall k | 0 <= k < |s.refused|
      ensures TurnedAway(s.refused[k].1) && s.refused[k].2 == RefusalOf(s.refused[k].1)
    {
      assert Effectless(s.refused[k].1, s.refused[k].2);
    }
  }

  lemma {:induction false} AdmittedPass(n: nat, schedule: Schedule, k: nat)
    requires Fits(schedule, n) && k < |Run(Start(n), schedule).order|
    ensures !TurnedAway(Run(Start(n), schedule).order[k].call)
  {
    hide Step, Linear, TurnedAway, PlaceOk, Preparing, RefusalOf;
    if schedule != [] {
      var init := schedule[..|schedule|-1];
      var (i, call) := schedule[|schedule|-1];
      var r := Run(Start(n), init);
      StartIsLinear(n);
      RunKeepsLinear(Start(n), init);
      LinearPlace(r, i);
      StepShape(r, i, call);
      if k < |r.order| {
        AdmittedPass(n, init, k);
      }
    }
  }

  // ---------------------------------------------------------------- every call returns

  /** How many own steps a thread needs to finish its call when it does not have
      to wait. */
  function StepsToGo(p: Place): nat {
    match p
    case Copying(c) => if c.WriteCall? then |c.buf| + 7 else 6
    case Scanning(buf, _, k) => if k < |buf| then |buf| - k + 6 else 6
    case Waiting(_, _, _) => 5
    case _ => StepsLeft(p)
  }

  lemma StepAlone(s: System, i: nat, call: Call)
    requires i < |s.threads| && s.threads[i] != Idle && s.holder in {None, Some(i)}
    requires Inside(s.threads[i]) <==> s.holder == Some(i)
    ensures var t := Step(s, i, call);
            && StepsToGo(t.threads[i]) < StepsToGo(s.threads[i])
            && t.threads == s.threads[i := t.threads[i]]
            && t.holder in {None, Some(i)} && t.started == s.started
  {
    hide Accepted, OutcomeOf, RefusalOf, TurnedAway, LastTen;
  }

  /** A thread that finds the semaphore free, or has it, and moves alone finishes
      its call. */
  lemma {:induction false} FinishAlone(s: System, i: nat) returns (schedule: Schedule)
    requires Linear(s) && i < |s.threads| && s.holder in {None, Some(i)}
    ensures Fits(schedule, |s.threads|) && |schedule| <= StepsToGo(s.threads[i])
    ensures var t := Run(s, schedule);
            && Linear(t) && t.threads == s.threads[i := Idle]
            && t.holder.None? && t.started == s.started
    decreases StepsToGo(s.threads[i])
  {
    hide Run, Step, StepsToGo, Settled, Unsettled;
    if s.threads[i] == Idle {
      schedule := [];
      RunNothing(s);
      IsExclusive(s, i);
    } else {
      var t := Step(s, i, LengthCall);
      IsExclusive(s, i);
      StepAlone(s, i, LengthCall);
      RunNothing(s);
      RunSnoc(s, [], i, LengthCall);
      RunKeepsLinear(s, [] + [(i, LengthCall)]);
      var rest := FinishAlone(t, i);
      RunConcat(s, [] + [(i, LengthCall)], rest);
      schedule := [] + [(i, LengthCall)] + rest;
      assert s.threads[i := t.threads[i]][i := Idle] == s.threads[i := Idle];
    }
  }

  /** Threads 0 to m finish their calls, one after the other. */
  lemma {:induction false} FinishFirst(s: System, m: nat) returns (schedule: Schedule)
    requires Linear(s) && s.holder.None? && m <= |s.threads|
    ensures Fits(schedule, |s.threads|)
    ensures var t := Run(s, schedule);
            && Linear(t) && t.holder.None? && t.started == s.started
            && forall i :: 0 <= i < m ==> t.threads[i] == Idle
  {
    hide Run, Linear;
    if m == 0 {
      schedule := [];
      RunNothing(s);
    } else {
      var first := FinishFirst(s, m - 1);
      var rest := FinishAlone(Run(s, first), m - 1);
      RunConcat(s, first, rest);
      schedule := first + rest;
    }
  }

  /** Nothing ever gets stuck: every run can go on, without a new call being
      started, to a point where every call that was started has been refused or
      has returned, the semaphore is free, and each thread has got a result for
      each of its calls, in the order it started them. */
  lemma EveryCallReturns(n: nat, schedule: Schedule) returns (more: Schedule)
    requires Fits(schedule, n)
    ensures Fits(more, n)
    ensures var s, t := Run(Start(n), schedule), Run(Run(Start(n), schedule), more);
            && t == Run(Start(n), schedule + more)
            && t.started == s.started && t.holder.None? && |t.outcomes| == |t.order|
            && forall i :: 0 <= i < n ==>
                 && t.threads[i] == Idle
                 && AdmittedBy(t.order, i) == Select(StartedBy(s.started, i), false)
                 && RefusedBy(t.refused, i) == Select(StartedBy(s.started, i), true)
  {
    hide Run, Step, Settled, Unsettled, StartedBy, AdmittedBy, RefusedBy, PlaceOk, Outcomes;
    var s := Run(Start(n), schedule);
    StartIsLinear(n);
    RunKeepsLinear(Start(n), schedule);
    var first: Schedule := [];
    RunNothing(s);
    if s.holder.Some? {
      first := FinishAlone(s, s.holder.value);
    }
    var rest := FinishFirst(Run(s, first), n);
    RunConcat(s, first, rest);
    more := first + rest;
    RunConcat(Start(n), schedule, more);
    var t := Run(s, more);
    OneResultEach(t);
    forall i | 0 <= i < n
      ensures AdmittedBy(t.order, i) == Select(StartedBy(s.started, i), false)
      ensures RefusedBy(t.refused, i) == Select(StartedBy(s.started, i), true)
    {
      ProgramOrder(n, schedule + more, i);
      DoneInOrder(t, i);
    }
  }

  lemma DoneInOrder(s: System, i: nat)
    requires i < |s.threads| && s.threads[i] == Idle && InOrder(s, i)
    ensures AdmittedBy(s.order, i) == Select(StartedBy(s.started, i), false)
    ensures RefusedBy(s.refused, i) == Select(StartedBy(s.started, i), true)
  {
    assert Select([], false) == [] && Select([], true) == [];
    assert forall calls: seq<Call> :: calls + [] == calls;
  }

  lemma OneResultEach(s: System)
    requires Linear(s) && s.holder.None?
    ensures |s.outcomes| == |s.order|
  {
    hide Replay, OutcomeOf;
    if s.order != [] {
      OutcomeAt(s.order, 0);
    }
  }
}
