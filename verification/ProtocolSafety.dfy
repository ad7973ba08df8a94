/**
 Who may write to a row, and when a settled row stays settled.

 The stale reset takes any row that has been in PROCESSING for longer than the threshold, whether
 its worker is dead or only slow.  So the protocol is safe exactly when live workers settle what
 they claim within the threshold.
 */
module ProtocolSafety {
  import opened Wrappers
  import opened Submissions
  import opened WorkerProtocol

  /** No row is held by two live workers. */
  predicate OneHolderEach(s: System) {
    forall v, w :: 0 <= v < w < |s.agents| && s.agents[v].Holding? && s.agents[w].Holding? ==>
      s.agents[v].id != s.agents[w].id
  }

  /** Every claim belongs to a row in PROCESSING that was last written by that claim, and to one worker. */
  predicate Exclusive(c: Config, s: System) {
    && WellFormed(s)
    && (forall w :: 0 <= w < |s.agents| && s.agents[w].Holding? ==>
          s.rows[s.agents[w].id].status == PROCESSING
          && s.rows[s.agents[w].id].updatedAt == s.agents[w].since <= s.now)
    && OneHolderEach(s)
    && (forall w :: 0 <= w < |s.agents| && s.agents[w].Starting? ==> s.agents[w].deadline <= s.now - c.Threshold())
  }

  /** No live worker has held a claim for more than `limit` milliseconds. */
  predicate Timely(s: System, limit: int) {
    forall w :: 0 <= w < |s.agents| && s.agents[w].Holding? ==> s.now <= s.agents[w].since + limit
  }

  /** A run in which no worker is ever later than `limit`. */
  ghost predicate TimelyRun(c: Config, s: System, run: seq<Action>, limit: int)
    requires WellFormed(s) && Run(c, s, run)
    decreases run
  {
    Timely(s, limit) && (run == [] || TimelyRun(c, Apply(c, s, run[0]), run[1..], limit))
  }

  /** Settled rows of `s` are the same in `t`. */
  predicate KeepsSettled(s: System, t: System) {
    |s.rows| <= |t.rows|
    && forall id :: 0 <= id < |s.rows| && Terminal(s.rows[id].status) ==> t.rows[id] == s.rows[id]
  }

  /** One action keeps claims exclusive and settled rows untouched, if no claim is overdue when a reset runs. */
  lemma SafeStep(c: Config, s: System, a: Action)
    requires Exclusive(c, s) && Enabled(s, a)
    requires a.Recover? ==> Timely(s, c.Threshold())
    ensures Exclusive(c, Apply(c, s, a)) && KeepsSettled(s, Apply(c, s, a))
  {
  }

  /** Timely runs with any crashes, restarts and interleaving. */
  lemma {:induction false} TimelyRunsAreSafe(c: Config, s: System, run: seq<Action>, limit: int)
    requires Exclusive(c, s) && Run(c, s, run) && TimelyRun(c, s, run, limit) && limit <= c.Threshold()
    ensures Exclusive(c, After(c, s, run)) && KeepsSettled(s, After(c, s, run))
    decreases run
  {
    if run != [] {
      SafeStep(c, s, run[0]);
      TimelyRunsAreSafe(c, Apply(c, s, run[0]), run[1..], limit);
    }
  }

  /** Without restarts no timing is needed. */
  lemma {:induction false} CrashFreeRunsAreSafe(c: Config, s: System, run: seq<Action>)
    requires Exclusive(c, s) && Run(c, s, run) && CrashFree(run)
    ensures Exclusive(c, After(c, s, run)) && KeepsSettled(s, After(c, s, run))
    decreases run
  {
    if run != [] {
      assert !run[0].Recover?;
      SafeStep(c, s, run[0]);
      assert CrashFree(run[1..]) by {
        forall i | 0 <= i < |run| - 1 ensures run[1..][i] == run[i + 1] {
        }
      }
      CrashFreeRunsAreSafe(c, Apply(c, s, run[0]), run[1..]);
    }
  }

  // ---------------------------------------------------------------- the threshold is exact

  /** Workers that are idle or not running, over any table. */
  predicate AtRest(s: System) {
    forall w :: 0 <= w < |s.agents| ==> s.agents[w].Idle? || s.agents[w].Down?
  }

  lemma {:induction false} RunPrefix(c: Config, s: System, run: seq<Action>, k: nat, limit: int)
    requires WellFormed(s) && Run(c, s, run) && TimelyRun(c, s, run, limit) && k <= |run|
    ensures Run(c, s, run[..k]) && TimelyRun(c, s, run[..k], limit)
    ensures Run(c, After(c, s, run[..k]), run[k..]) && TimelyRun(c, After(c, s, run[..k]), run[k..], limit)
    ensures After(c, After(c, s, run[..k]), run[k..]) == After(c, s, run)
    decreases run
  {
    if k == 0 {
      assert run[..0] == [] && run[0..] == run;
    } else {
      RunPrefix(c, Apply(c, s, run[0]), run[1..], k - 1, limit);
      assert run[..k][1..] == run[1..][..k - 1] && run[k..] == run[1..][k - 1..];
    }
  }

  /** Along a run, no row ever has two holders, and what is settled at any moment is the same at the end. */
  ghost predicate SafeRun(c: Config, s: System, run: seq<Action>)
    requires WellFormed(s) && Run(c, s, run)
  {
    OneHolderEach(After(c, s, run))
    && forall k :: 0 <= k <= |run| && Run(c, s, run[..k]) ==> KeepsSettled(After(c, s, run[..k]), After(c, s, run))
  }

  /** All runs of limit-timely workers that start at rest are safe. */
  ghost predicate SafeWithin(c: Config, limit: int) {
    forall s: System, run: seq<Action> ::
      AtRest(s) && WellFormed(s) && Run(c, s, run) && TimelyRun(c, s, run, limit) ==> SafeRun(c, s, run)
  }

  lemma TimelyRunIsSafeRun(c: Config, s: System, run: seq<Action>, limit: int)
    requires AtRest(s) && WellFormed(s) && Run(c, s, run) && TimelyRun(c, s, run, limit) && limit <= c.Threshold()
    ensures SafeRun(c, s, run)
  {
    TimelyRunsAreSafe(c, s, run, limit);
    forall k | 0 <= k <= |run| && Run(c, s, run[..k])
      ensures KeepsSettled(After(c, s, run[..k]), After(c, s, run))
    {
      RunPrefix(c, s, run, k, limit);
      TimelyRunsAreSafe(c, s, run[..k], limit);
      TimelyRunsAreSafe(c, After(c, s, run[..k]), run[k..], limit);
    }
  }

  lemma RunNil(c: Config, s: System, limit: int)
    requires WellFormed(s) && Timely(s, limit)
    ensures Run(c, s, []) && TimelyRun(c, s, [], limit) && After(c, s, []) == s
  {
  }

  lemma {:induction false} RunSnoc(c: Config, s: System, run: seq<Action>, a: Action, limit: int)
    requires WellFormed(s) && Run(c, s, run) && TimelyRun(c, s, run, limit)
    requires Enabled(After(c, s, run), a) && Timely(Apply(c, After(c, s, run), a), limit)
    ensures Run(c, s, run + [a]) && TimelyRun(c, s, run + [a], limit)
    ensures After(c, s, run + [a]) == Apply(c, After(c, s, run), a)
    decreases run
  {
    if run == [] {
      assert [] + [a] == [a] && [a][1..] == [];
    } else {
      assert (run + [a])[1..] == run[1..] + [a];
      RunSnoc(c, Apply(c, s, run[0]), run[1..], a, limit);
    }
  }

  /** A count with one attempt left. */
  function LastCount(c: Config): nat {
    if c.maxAttempts == 0 then 0 else c.maxAttempts - 1
  }

  /** Worker 0 claims a row on its last attempt and dawdles; worker 1 starts one millisecond past the threshold. */
  lemma LateWorker(c: Config, limit: int) returns (s: System, run: seq<Action>)
    requires limit > c.Threshold()
    ensures AtRest(s) && WellFormed(s) && Run(c, s, run) && TimelyRun(c, s, run, limit)
    ensures After(c, s, run) == System(c.Threshold() + 1,
                                       [Submission("c", "r", PROCESSING, None, LastCount(c), None, 0, 0)],
                                       [Holding(0, LastCount(c), 0, None), Starting(1)], [])
  {
    var late := c.Threshold() + 1;
    s := System(0, [Submission("c", "r", PENDING, None, LastCount(c), None, 0, 0)], [Idle, Down], []);
    run := [];
    RunNil(c, s, limit);
    hide Run, After, TimelyRun;
    RunSnoc(c, s, run, Poll(0, Some(0)), limit);
    run := run + [Poll(0, Some(0))];
    RunSnoc(c, s, run, Claim(0), limit);
    run := run + [Claim(0)];
    RunSnoc(c, s, run, Tick(late), limit);
    run := run + [Tick(late)];
    RunSnoc(c, s, run, Boot(1), limit);
    run := run + [Boot(1)];
  }

  /** Then worker 1 resets the row and claims it too. */
  lemma LateWorkerLosesRow(c: Config, limit: int) returns (s: System, run: seq<Action>)
    requires limit > c.Threshold()
    ensures AtRest(s) && WellFormed(s) && Run(c, s, run) && TimelyRun(c, s, run, limit)
    ensures var t := After(c, s, run); var late := c.Threshold() + 1;
            t.now == late && |t.rows| == 1
            && t.agents == [Holding(0, LastCount(c), 0, None), Holding(0, LastCount(c), late, None)]
  {
    s, run := LateWorker(c, limit);
    hide Run, After, TimelyRun;
    RunSnoc(c, s, run, Recover(1), limit);
    run := run + [Recover(1)];
    assert After(c, s, run).rows[0].status == PENDING;
    RunSnoc(c, s, run, Poll(1, Some(0)), limit);
    run := run + [Poll(1, Some(0))];
    RunSnoc(c, s, run, Claim(1), limit);
    run := run + [Claim(1)];
  }

  /** Both POST it; worker 0 gets an ok answer and settles the row as sent, worker 1 gets none and settles it as failed. */
  lemma LateWorkerRewritesSettledRow(c: Config, limit: int) returns (s: System, run: seq<Action>, k: nat)
    requires limit > c.Threshold()
    ensures AtRest(s) && WellFormed(s) && Run(c, s, run) && TimelyRun(c, s, run, limit)
    ensures k <= |run| && Run(c, s, run[..k])
    ensures var before, after := After(c, s, run[..k]), After(c, s, run);
            |before.rows| == |after.rows| == 1 && before.rows[0].status == MOCK_SENT && after.rows[0].status == FAILED
  {
    s, run := LateWorkerLosesRow(c, limit);
    hide Run, After, TimelyRun;
    RunSnoc(c, s, run, Send(0, true), limit);
    run := run + [Send(0, true)];
    RunSnoc(c, s, run, Send(1, false), limit);
    run := run + [Send(1, false)];
    RunSnoc(c, s, run, Settle(0, Sent), limit);
    var sent := run + [Settle(0, Sent)];
    RunSnoc(c, s, sent, Settle(1, Retry("HTTP 500")), limit);
    run := sent + [Settle(1, Retry("HTTP 500"))];
    k := |sent|;
    assert run[..k] == sent;
  }

  /** The protocol is safe exactly when live workers settle within max(60000, staleMs) of their claim. */
  lemma SafeExactlyWithinThreshold(c: Config, limit: int)
    ensures SafeWithin(c, limit) <==> limit <= 60_000 || limit <= c.staleMs
  {
    if limit <= c.Threshold() {
      forall s: System, run: seq<Action> | AtRest(s) && WellFormed(s) && Run(c, s, run) && TimelyRun(c, s, run, limit)
        ensures SafeRun(c, s, run)
      {
        TimelyRunIsSafeRun(c, s, run, limit);
      }
    } else {
      var s, run, k := LateWorkerRewritesSettledRow(c, limit);
      assert !KeepsSettled(After(c, s, run[..k]), After(c, s, run));
    }
  }

  // ---------------------------------------------------------------- what a claim and a restart do

  /** A claim takes the row exactly if it is still pending, with the count read before; otherwise the worker moves on. */
  lemma ClaimIsConditional(c: Config, s: System, w: nat, id: nat, count: nat)
    requires WellFormed(s) && w < |s.agents| && s.agents[w] == Chose(id, count)
    ensures var t := Apply(c, s, Claim(w));
            if s.rows[id].status == PENDING then
              t == System(s.now, s.rows[id := s.rows[id].(status := PROCESSING, updatedAt := s.now)],
                          s.agents[w := Holding(id, count, s.now, None)], s.wire)
            else
              t == System(s.now, s.rows, s.agents[w := Idle], s.wire)
  {
  }

  /** A stale reset returns every row to PENDING that was left in PROCESSING since before its deadline, and no other row. */
  lemma RecoverReleases(c: Config, s: System, w: nat, id: nat)
    requires WellFormed(s) && Enabled(s, Recover(w)) && id < |s.rows|
    ensures var row, after := s.rows[id], Apply(c, s, Recover(w)).rows[id];
            if row.status == PROCESSING && row.updatedAt < s.agents[w].deadline then
              after == row.(status := PENDING, updatedAt := s.now)
            else
              after == row
    ensures Apply(c, s, Recover(w)).agents == s.agents[w := Idle]
  {
  }

  /** The row of a crashed worker can be claimed again once a worker restarts max(60000, staleMs) after its last write, and not before. */
  lemma CrashedRowComesBack(c: Config, s: System, w: nat, id: nat)
    requires WellFormed(s) && w < |s.agents| && s.agents[w].Down? && id < |s.rows| && s.rows[id].status == PROCESSING
    ensures Run(c, s, [Boot(w), Recover(w)])
    ensures var t := After(c, s, [Boot(w), Recover(w)]);
            t.agents[w].Idle?
            && (t.rows[id].status == PENDING <==>
                s.now > s.rows[id].updatedAt + 60_000 && s.now > s.rows[id].updatedAt + c.staleMs)
  {
    var booted := Apply(c, s, Boot(w));
    RecoverReleases(c, booted, w, id);
    TwoSteps(c, s, Boot(w), Recover(w));
    hide Run, After;
  }

  lemma TwoSteps(c: Config, s: System, a: Action, b: Action)
    requires WellFormed(s) && Enabled(s, a) && Enabled(Apply(c, s, a), b)
    ensures Run(c, s, [a, b]) && After(c, s, [a, b]) == Apply(c, Apply(c, s, a), b)
  {
    var t := Apply(c, s, a);
    var u := Apply(c, t, b);
    assert [a, b][1..] == [b] && [b][1..] == [];
    assert Run(c, u, []) && After(c, u, []) == u;
    assert Run(c, t, [b]) && After(c, t, [b]) == u;
    assert After(c, s, [a, b]) == After(c, t, [a, b][1..]);
  }
}
