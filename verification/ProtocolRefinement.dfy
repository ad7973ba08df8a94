/** A call of `processOne` by a lone worker is a run of the interleaved protocol with one worker. */
module ProtocolRefinement {
  import opened Wrappers
  import opened Submissions
  import P = WorkerProtocol
  import S = ProtocolSafety
  import opened SingleWorker

  /** The atomic steps of one call, up to where it settles its row, if it has picked one. */
  function StepsToSettle(t: Turn): seq<P.Action> {
    match t.pick
    case None => [P.Tick(t.claimAt), P.Poll(0, None)]
    case Some(_) =>
      [P.Tick(t.claimAt), P.Poll(0, t.pick), P.Claim(0)]
      + (if Posts(CompanyOf(t.company), t.reservation) then [P.Send(0, t.response.Replied? && t.response.ok)] else [])
  }

  function Steps(t: Turn): seq<P.Action> {
    StepsToSettle(t) + (if t.pick == None then [] else [P.Tick(t.settleAt), P.Settle(0, VerdictOf(t))])
  }

  /** The answer that the worker has when it settles the row. */
  function AnswerOf(t: Turn): Option<bool> {
    if Posts(CompanyOf(t.company), t.reservation) then Some(t.response.Replied? && t.response.ok) else None
  }

  /** Up to the settling write: the row is claimed, and the POST sent if there is one. */
  lemma CallClaims(c: P.Config, s: P.System, q: Queue, t: Turn)
    requires s.agents == [P.Idle] && s.rows == q.rows && s.wire == q.wire && P.WellFormed(s)
    requires Possible(q, Work(t)) && s.now <= t.claimAt <= t.settleAt
    ensures P.Run(c, s, StepsToSettle(t)) && S.TimelyRun(c, s, StepsToSettle(t), t.settleAt - t.claimAt)
    ensures P.After(c, s, StepsToSettle(t))
            == if t.pick == None then s.(now := t.claimAt)
               else
                 var id := t.pick.value;
                 P.System(t.claimAt, q.rows[id := Claimed(q.rows[id], t.claimAt)],
                          [P.Holding(id, q.rows[id].attemptCount, t.claimAt, AnswerOf(t))], WireAfter(q.wire, id, t))
  {
    var limit := t.settleAt - t.claimAt;
    var run: seq<P.Action> := [];
    S.RunNil(c, s, limit);
    hide Decide, Posts, P.Run, P.After, S.TimelyRun;
    S.RunSnoc(c, s, run, P.Tick(t.claimAt), limit);
    run := run + [P.Tick(t.claimAt)];
    S.RunSnoc(c, s, run, P.Poll(0, t.pick), limit);
    run := run + [P.Poll(0, t.pick)];
    if t.pick.Some? {
      S.RunSnoc(c, s, run, P.Claim(0), limit);
      run := run + [P.Claim(0)];
      if Posts(CompanyOf(t.company), t.reservation) {
        var send := P.Send(0, t.response.Replied? && t.response.ok);
        S.RunSnoc(c, s, run, send, limit);
        run := run + [send];
      }
    }
    assert run == StepsToSettle(t);
  }

  /** The time of the last step of a call. */
  function EndOf(t: Turn): int {
    if t.pick == None then t.claimAt else t.settleAt
  }

  /** Read, claim, POST and settle, taken one after the other, do to the table and the wire what the call does. */
  lemma CallIsRun(c: P.Config, s: P.System, q: Queue, t: Turn)
    requires s.agents == [P.Idle] && s.rows == q.rows && s.wire == q.wire && P.WellFormed(s)
    requires Possible(q, Work(t)) && s.now <= t.claimAt <= t.settleAt
    ensures P.Run(c, s, Steps(t))
    ensures var after := P.After(c, s, Steps(t)); var q' := TakeTurn(q, t, c.maxAttempts).0;
            after.rows == q'.rows && after.wire == q'.wire && after.agents == [P.Idle] && after.now == EndOf(t)
  {
    CallClaims(c, s, q, t);
    hide Decide, Posts, P.Run, P.After, S.TimelyRun, StepsToSettle, OldestPending;
    var run := StepsToSettle(t);
    if t.pick == None {
      assert run == Steps(t);
    } else {
      PostDecides(CompanyOf(t.company), t.reservation, t.response);
      S.RunSnoc(c, s, run, P.Tick(t.settleAt), t.settleAt - t.claimAt);
      run := run + [P.Tick(t.settleAt)];
      S.RunSnoc(c, s, run, P.Settle(0, VerdictOf(t)), t.settleAt - t.claimAt);
      run := run + [P.Settle(0, VerdictOf(t))];
      assert run == Steps(t);
      var id := t.pick.value;
      assert P.After(c, s, run).rows == q.rows[id := P.After(c, s, run).rows[id]];
    }
  }

  // ---------------------------------------------------------------- whole histories

  function EventSteps(e: Event): seq<P.Action> {
    match e
    case Work(t) => Steps(t)
    case Enqueue(row) => [P.Enqueue(row)]
  }

  /** The atomic steps of a history. */
  function HistorySteps(events: seq<Event>): seq<P.Action> {
    if events == [] then [] else EventSteps(events[0]) + HistorySteps(events[1..])
  }

  /** The clock does not go back between or within the calls of a history. */
  predicate Clocked(now: int, events: seq<Event>)
    decreases events
  {
    events == []
    || match events[0]
       case Work(t) => now <= t.claimAt <= t.settleAt && Clocked(EndOf(t), events[1..])
       case Enqueue(_) => Clocked(now, events[1..])
  }

  lemma {:induction false} RunsJoin(c: P.Config, s: P.System, a: seq<P.Action>, b: seq<P.Action>)
    requires P.WellFormed(s) && P.Run(c, s, a) && P.Run(c, P.After(c, s, a), b)
    ensures P.Run(c, s, a + b) && P.After(c, s, a + b) == P.After(c, P.After(c, s, a), b)
    decreases a
  {
    if a == [] {
      assert a + b == b;
    } else {
      assert (a + b)[1..] == a[1..] + b;
      RunsJoin(c, P.Apply(c, s, a[0]), a[1..], b);
    }
  }

  /** One event of a history, as a run. */
  lemma EventIsRun(c: P.Config, s: P.System, q: Queue, e: Event)
    requires s.agents == [P.Idle] && s.rows == q.rows && s.wire == q.wire && P.WellFormed(s)
    requires Possible(q, e) && (e.Work? ==> s.now <= e.turn.claimAt <= e.turn.settleAt)
    ensures P.Run(c, s, EventSteps(e))
    ensures var after := P.After(c, s, EventSteps(e)); var q' := Next(q, e, c.maxAttempts);
            after.rows == q'.rows && after.wire == q'.wire && after.agents == [P.Idle]
            && after.now == if e.Work? then EndOf(e.turn) else s.now
  {
    match e
    case Work(t) => CallIsRun(c, s, q, t);
    case Enqueue(row) =>
      assert [P.Enqueue(row)][1..] == [];
  }

  /** Every history of a lone worker, arrivals included, is a run of the interleaved protocol with one worker. */
  lemma {:induction false} HistoryIsRun(c: P.Config, s: P.System, q: Queue, events: seq<Event>)
    requires s.agents == [P.Idle] && s.rows == q.rows && s.wire == q.wire && P.WellFormed(s)
    requires History(q, events, c.maxAttempts) && Clocked(s.now, events)
    ensures P.Run(c, s, HistorySteps(events))
    ensures var after := P.After(c, s, HistorySteps(events)); var last := Finally(q, events, c.maxAttempts);
            after.rows == last.rows && after.wire == last.wire && after.agents == [P.Idle]
    decreases events
  {
    if events != [] {
      EventIsRun(c, s, q, events[0]);
      hide EventSteps, Possible, Next;
      var s' := P.After(c, s, EventSteps(events[0]));
      HistoryIsRun(c, s', Next(q, events[0], c.maxAttempts), events[1..]);
      hide P.Run, P.After;
      RunsJoin(c, s, EventSteps(events[0]), HistorySteps(events[1..]));
    }
  }
}
