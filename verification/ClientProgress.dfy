/** Every client of the server is answered (aesdsocket.c, char-device build): no
    client gets stuck in a turn, and every run can go on until all lines sent so
    far have been answered. */
module ClientProgress {
  import opened ByteStream
  import opened CommandLog
  import opened SeekCommand
  import opened ClientSession
  import opened ClientThreads

  // ---------------------------------------------------------------- one turn

  /** How many own steps client `i` needs to finish its turn when it does not
      have to wait for the log lock. */
  function TurnSteps(s: Server, i: nat): nat
    requires i < |s.clients|
  {
    match s.clients[i].phase
    case Receiving => 0
    case Dispatching => CAPACITY + 7
    case Answering => CAPACITY + 3
    case Sending(_, _) => LockSteps(s, i)
    case Releasing => LockSteps(s, i)
    case _ => LockSteps(s, i) + CAPACITY + 3
  }

  /** What a step does to client `i` that is in a turn and does not wait, whatever
      fails: it gets closer to the end of the turn, and touches no other client.
      The turn ends by being recorded. */
  predicate Advances(s: Server, i: nat, t: Server)
    requires i < |s.clients|
  {
    && |t.clients| == |s.clients| && t.clients == s.clients[i := t.clients[i]]
    && t.lock in {None, Some(i)}
    && TurnSteps(t, i) < TurnSteps(s, i)
    && var c, d := s.clients[i], t.clients[i];
       && d.unread == c.unread
       && (if d.phase.Receiving? then d.turns == c.turns + [c.draft] && c.draft.line == c.buffer
           else d.turns == c.turns && d.buffer == c.buffer)
  }

  /** The client may move: it has the lock, or nobody has. */
  predicate MayMove(s: Server, i: nat) {
    i < |s.clients| && s.lock in {None, Some(i)}
  }

  lemma AloneAdvances(s: Server, i: nat, env: Env)
    requires ServerOk(s) && MayMove(s, i) && !s.clients[i].phase.Receiving?
    ensures Advances(s, i, Step(s, i, env))
  {
    hide ServerOk, Advances, Step, ClientOk, LockSteps;
    ClientIsOk(s, i);
    if Locked(s.clients[i].phase) {
      InSection(s, i, env);
    } else {
      BetweenSections(s, i, env);
    }
  }

  /** Taking the lock, or doing without it. */
  lemma BetweenSections(s: Server, i: nat, env: Env)
    requires ServerOk(s) && i < |s.clients| && s.lock.None?
    requires s.clients[i].phase.Dispatching? || s.clients[i].phase.Answering?
    ensures Advances(s, i, Step(s, i, env))
  {
    hide ServerOk, DispatchOf, ReadLoop;
    StepOk(s, i, env);
    LockStepsBound(Step(s, i, env), i);
  }

  /** A step of the holder of the lock. */
  lemma InSection(s: Server, i: nat, env: Env)
    requires ServerOk(s) && i < |s.clients| && s.lock == Some(i) && Locked(s.clients[i].phase)
    ensures Advances(s, i, Step(s, i, env))
  {
    hide ServerOk, ClientOk, LockSteps, Step, Window, Commands, AllLines, PhaseOk;
    HolderStep(s, i, env);
    LockStepsBound(s, i);
    SectionShape(s, i, env);
    if s.clients[i].phase.Releasing? {
      DraftLine(s, i);
    }
  }

  lemma DraftLine(s: Server, i: nat)
    requires ServerOk(s) && i < |s.clients| && s.clients[i].phase.Releasing?
    ensures s.clients[i].draft.line == s.clients[i].buffer
  {
    assert ClientOk(s.log, i, s.clients[i]);
  }

  lemma SectionShape(s: Server, i: nat, env: Env)
    requires i < |s.clients| && Locked(s.clients[i].phase) && s.lock == Some(i)
    ensures var t := Step(s, i, env);
            var c, d := s.clients[i], t.clients[i];
            && t.clients == s.clients[i := d] && t.lock in {None, Some(i)} && d.unread == c.unread
            && (if c.phase.Unlocking? then d == c.(phase := Answering) && t.lock.None?
                else if c.phase.Releasing? then d == Finish(c) && t.lock.None?
                else
                  && t.lock == Some(i) && d.turns == c.turns && d.buffer == c.buffer
                  && if c.phase.Sending? then d.phase.Sending? || d.phase.Releasing?
                     else d.phase.Writing? || d.phase.Unlocking?)
  {
    hide SeekTo, ReadChunk, FixedSizeLlseek, FaultyWrite, WriteResult, Contents, Accepted, EndsCommand, DispatchOf;
  }

  // ---------------------------------------------------------------- a client alone

  /** Client `i` moves, the surroundings answering as in `envs`. */
  function Alone(i: nat, envs: seq<Env>): (schedule: Schedule)
    ensures |schedule| == |envs|
    ensures forall k :: 0 <= k < |envs| ==> schedule[k] == (i, envs[k])
  {
    seq(|envs|, k requires 0 <= k < |envs| => (i, envs[k]))
  }

  lemma RunNothing(s: Server)
    ensures Run(s, []) == s
  {
  }

  lemma RunSnoc(s: Server, schedule: Schedule, i: nat, env: Env)
    requires Fits(schedule, |s.clients|) && i < |s.clients|
    ensures Fits(schedule + [(i, env)], |s.clients|)
    ensures Run(s, schedule + [(i, env)]) == Step(Run(s, schedule), i, env)
  {
    assert (schedule + [(i, env)])[..|schedule|] == schedule;
  }

  lemma {:induction false} RunConcat(s: Server, first: Schedule, rest: Schedule)
    requires Fits(first, |s.clients|) && Fits(rest, |s.clients|)
    ensures Fits(first + rest, |s.clients|) && Run(s, first + rest) == Run(Run(s, first), rest)
  {
    hide Step, Run;
    if rest == [] {
      assert first + rest == first;
      RunNothing(Run(s, first));
    } else {
      var init, last := rest[..|rest|-1], rest[|rest|-1];
      Snoc(rest);
      Assoc(first, init, [last]);
      RunConcat(s, first, init);
      RunSnoc(s, first + init, last.0, last.1);
      RunSnoc(Run(s, first), init, last.0, last.1);
    }
  }

  lemma RunFirst(s: Server, i: nat, env: Env, rest: Schedule)
    requires i < |s.clients| && Fits(rest, |s.clients|)
    ensures Fits([(i, env)] + rest, |s.clients|) && Run(s, [(i, env)] + rest) == Run(Step(s, i, env), rest)
  {
    hide Step, Run;
    RunNothing(s);
    RunSnoc(s, [], i, env);
    assert [] + [(i, env)] == [(i, env)];
    RunConcat(s, [(i, env)], rest);
  }

  /** The turn of client `i` has ended, and been recorded, from `s` to `t`. */
  predicate TurnEnded(s: Server, i: nat, t: Server)
    requires i < |s.clients|
  {
    && |t.clients| == |s.clients| && t.clients == s.clients[i := t.clients[i]] && t.lock.None?
    && var c, d := s.clients[i], t.clients[i];
       && d.phase.Receiving? && d.unread == c.unread
       && |d.turns| == |c.turns| + 1 && d.turns[..|c.turns|] == c.turns
       && d.turns[|c.turns|].line == c.buffer
  }

  /** A client in a turn that has the log lock, or finds it free, and moves alone
      finishes the turn within seventeen steps, whatever fails. */
  lemma {:induction false} TurnFinishes(s: Server, i: nat, envs: seq<Env>) returns (k: nat)
    requires ServerOk(s) && MayMove(s, i) && !s.clients[i].phase.Receiving?
    requires |envs| >= TurnSteps(s, i)
    ensures 0 < k <= TurnSteps(s, i) <= CAPACITY + 7 && k <= |envs|
    ensures Fits(Alone(i, envs[..k]), |s.clients|)
    ensures var t := Run(s, Alone(i, envs[..k])); ServerOk(t) && TurnEnded(s, i, t)
    decreases TurnSteps(s, i)
  {
    hide ServerOk, Step, Run, TurnSteps;
    TurnStepsBound(s, i);
    var t := Step(s, i, envs[0]);
    AloneAdvances(s, i, envs[0]);
    StepOk(s, i, envs[0]);
    if t.clients[i].phase.Receiving? {
      k := 1;
      RunFirst(s, i, envs[0], []);
      RunNothing(t);
      assert Alone(i, envs[..k]) == [(i, envs[0])] + [];
      LockFree(t, i);
    } else {
      var n := TurnFinishes(t, i, envs[1..]);
      k := n + 1;
      RunFirst(s, i, envs[0], Alone(i, envs[1..][..n]));
      assert envs[..k] == [envs[0]] + envs[1..][..n];
      assert Alone(i, envs[..k]) == [(i, envs[0])] + Alone(i, envs[1..][..n]);
      EndsLater(s, i, t, Run(t, Alone(i, envs[1..][..n])));
    }
  }

  lemma LockFree(s: Server, i: nat)
    requires ServerOk(s) && MayMove(s, i) && !Locked(s.clients[i].phase)
    ensures s.lock.None?
  {
    hide ClientOk, AllLines, Window;
  }

  lemma EndsLater(s: Server, i: nat, t: Server, u: Server)
    requires i < |s.clients| && Advances(s, i, t) && !t.clients[i].phase.Receiving? && TurnEnded(t, i, u)
    ensures TurnEnded(s, i, u)
  {
    hide TurnSteps;
    assert s.clients[i := t.clients[i]][i := u.clients[i]] == s.clients[i := u.clients[i]];
  }

  lemma TurnStepsBound(s: Server, i: nat)
    requires ServerOk(s) && i < |s.clients|
    ensures TurnSteps(s, i) <= CAPACITY + 7
    ensures !s.clients[i].phase.Receiving? ==> TurnSteps(s, i) > 0
  {
    hide ServerOk, ClientOk, ReadLoop;
    ClientIsOk(s, i);
    LockStepsBound(s, i);
  }

  // ---------------------------------------------------------------- all clients

  /** Client `i` has received all of its stream and answered every line of it. */
  predicate AllAnswered(c: Client) {
    c.unread == [] && c.phase.Receiving?
  }

  /** From `s` to `t` only client `i` moved, and it has answered everything. */
  predicate Finished(s: Server, i: nat, t: Server)
    requires i < |s.clients|
  {
    && |t.clients| == |s.clients| && t.clients == s.clients[i := t.clients[i]]
    && t.lock.None? && AllAnswered(t.clients[i])
  }

  lemma ReceiveShape(s: Server, i: nat)
    requires i < |s.clients| && s.clients[i].phase.Receiving? && s.clients[i].unread != []
    ensures var t := Step(s, i, NO_FAILURE);
            && t.clients == s.clients[i := t.clients[i]] && t.lock == s.lock
            && |t.clients[i].unread| < |s.clients[i].unread|
  {
  }

  /** A client that has the log lock, or finds it free, and moves alone answers
      its whole stream, nothing failing. */
  lemma {:induction false} ClientFinishes(s: Server, i: nat) returns (schedule: Schedule)
    requires ServerOk(s) && MayMove(s, i)
    ensures Fits(schedule, |s.clients|) && Faultless(schedule)
    ensures var t := Run(s, schedule); ServerOk(t) && Finished(s, i, t)
    decreases |s.clients[i].unread|, TurnSteps(s, i)
  {
    hide ServerOk, Step, Run, TurnSteps;
    var first: Schedule;
    if !s.clients[i].phase.Receiving? {
      var envs := seq(TurnSteps(s, i), _ => NO_FAILURE);
      var k := TurnFinishes(s, i, envs);
      first := Alone(i, envs[..k]);
    } else if s.clients[i].unread != [] {
      first := [(i, NO_FAILURE)];
      RunFirst(s, i, NO_FAILURE, []);
      RunNothing(Step(s, i, NO_FAILURE));
      assert first + [] == first;
      ReceiveShape(s, i);
      StepOk(s, i, NO_FAILURE);
    } else {
      RunNothing(s);
      LockFree(s, i);
      return [];
    }
    var t := Run(s, first);
    TurnIsOver(s, i, t);
    var rest := ClientFinishes(t, i);
    RunConcat(s, first, rest);
    schedule := first + rest;
    var u := Run(t, rest);
    assert s.clients[i := t.clients[i]][i := u.clients[i]] == s.clients[i := u.clients[i]];
  }

  lemma TurnIsOver(s: Server, i: nat, t: Server)
    requires ServerOk(s) && i < |s.clients| && i < |t.clients|
    ensures t.clients[i].phase.Receiving? && !s.clients[i].phase.Receiving? ==> TurnSteps(t, i) < TurnSteps(s, i)
  {
    hide ServerOk;
    TurnStepsBound(s, i);
  }

  /** Clients 0 to m answer their streams, one after the other. */
  lemma {:induction false} FirstFinish(s: Server, m: nat) returns (schedule: Schedule)
    requires ServerOk(s) && s.lock.None? && m <= |s.clients|
    ensures Fits(schedule, |s.clients|) && Faultless(schedule)
    ensures var t := Run(s, schedule);
            && ServerOk(t) && t.lock.None?
            && forall i :: 0 <= i < m ==> AllAnswered(t.clients[i])
  {
    hide ServerOk, Run, AllAnswered;
    if m == 0 {
      schedule := [];
      RunNothing(s);
    } else {
      var first := FirstFinish(s, m - 1);
      var rest := ClientFinishes(Run(s, first), m - 1);
      RunConcat(s, first, rest);
      schedule := first + rest;
    }
  }

  lemma {:induction false} HolderExists(streams: seq<Bytes>, schedule: Schedule)
    requires Fits(schedule, |streams|)
    ensures var s := Run(Start(streams), schedule); s.lock.Some? ==> s.lock.value < |s.clients|
  {
    hide Step;
    if schedule != [] {
      var init := schedule[..|schedule|-1];
      HolderExists(streams, init);
      LockTaken(Run(Start(streams), init), schedule[|schedule|-1].0, schedule[|schedule|-1].1);
    }
  }

  lemma LockTaken(s: Server, i: nat, env: Env)
    requires i < |s.clients|
    ensures Step(s, i, env).lock in {s.lock, None, Some(i)}
  {
    hide DispatchOf, SeekTo, ReadChunk, FixedSizeLlseek, FaultyWrite, WriteResult, Contents, Accepted, EndsCommand;
  }

  /** Nobody is ever stuck: whatever has failed and however the clients have been
      interleaved, every run can go on until the whole stream of every client has
      been received and every complete line of it has had its turn, in order, with
      what the client was sent being the replies of those turns. */
  lemma EveryLineIsAnswered(streams: seq<Bytes>, schedule: Schedule) returns (more: Schedule)
    requires Fits(schedule, |streams|)
    ensures Fits(more, |streams|) && Faultless(more)
    ensures var s := Run(Start(streams), schedule + more);
            && s.lock.None?
            && forall i :: 0 <= i < |streams| ==> Answered(streams[i], s.clients[i])
  {
    hide Run, ServerOk, AllAnswered, Answered;
    StartOk(streams);
    RunOk(Start(streams), schedule);
    var s := Run(Start(streams), schedule);
    var first: Schedule := [];
    RunNothing(s);
    if s.lock.Some? {
      HolderExists(streams, schedule);
      first := ClientFinishes(s, s.lock.value);
    }
    var rest := FirstFinish(Run(s, first), |streams|);
    RunConcat(s, first, rest);
    more := first + rest;
    RunConcat(Start(streams), schedule, more);
    forall i | 0 <= i < |streams|
      ensures Answered(streams[i], Run(s, more).clients[i])
    {
      ClientIsServed(streams, schedule + more, i);
      StreamAnswered(streams[i], Run(s, more).clients[i]);
    }
  }

  /** Every complete line of the stream has had a turn and the client has been
      sent the replies. */
  predicate Answered(stream: Bytes, c: Client) {
    && c.phase.Receiving? && c.unread == []
    && TurnLines(c.turns) == Lines(stream) && c.sent == Flatten(Replies(c.turns))
  }

  lemma StreamAnswered(stream: Bytes, c: Client)
    requires AllAnswered(c) && c.seen + c.unread == stream
    requires Lines(c.seen) == TurnLines(c.turns) + Current(c)
    requires c.sent == Flatten(Replies(c.turns)) + CurrentReply(c)
    ensures Answered(stream, c)
  {
    hide Lines, TurnLines, Replies, Flatten;
    assert c.seen + [] == c.seen;
    assert TurnLines(c.turns) + [] == TurnLines(c.turns);
    assert Flatten(Replies(c.turns)) + [] == Flatten(Replies(c.turns));
  }

  /** A client that has the server to itself, nothing failing, is sent exactly the
      replies of the contract to all complete lines of its stream, and the device
      and the position are left as the contract says. */
  lemma OneStreamIsAnswered(stream: Bytes) returns (schedule: Schedule)
    ensures Fits(schedule, 1) && Faultless(schedule)
    ensures var s := Run(Start([stream]), schedule);
            var c, session := s.clients[0], Serve(NO_SESSION, Lines(stream));
            && Answered(stream, c)
            && c.sent == Flatten(session.replies) && c.pos == session.pos && s.dev == Of(session.history)
  {
    hide Run, Lines, Serve, Flatten, Of, Replies, TurnLines, SessionAfter, Chain, Start;
    schedule := EveryLineIsAnswered([stream], []);
    assert [] + schedule == schedule;
    OneClientIsServed(stream, schedule);
    assert [stream][0] == stream;
  }
}
