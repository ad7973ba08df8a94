/**
 When the attempt count of a row only grows.

 The write-back stores one more than the count read before the claim.  If other workers requeued
 the row in between, that is less than what the row says.  So "attempts only grow" holds for a
 single worker, or when a row can be requeued at most once, and in no other configuration.
 */
module ProtocolCounts {
  import opened Wrappers
  import opened Submissions
  import opened WorkerProtocol
  import opened ProtocolSafety

  /** What workers remember of unsettled rows is current, or one requeue behind. */
  predicate CountsKnown(c: Config, s: System)
    requires WellFormed(s)
  {
    forall w :: 0 <= w < |s.agents| && (s.agents[w].Chose? || s.agents[w].Holding?) ==>
      var row := s.rows[s.agents[w].id];
      Terminal(row.status) || s.agents[w].count == row.attemptCount
      || (c.maxAttempts == 2 && s.agents[w].count == 0 && row.attemptCount == 1)
  }

  predicate NoCountFalls(s: System, t: System) {
    |s.rows| <= |t.rows|
    && forall id :: 0 <= id < |s.rows| ==> s.rows[id].attemptCount <= t.rows[id].attemptCount
  }

  lemma CountsStep(c: Config, s: System, a: Action)
    requires Exclusive(c, s) && CountsKnown(c, s) && Enabled(s, a)
    requires |s.agents| <= 1 || c.maxAttempts <= 2
    requires a.Recover? ==> Timely(s, c.Threshold())
    ensures CountsKnown(c, Apply(c, s, a)) && NoCountFalls(s, Apply(c, s, a))
  {
  }

  lemma {:induction false} CountsRun(c: Config, s: System, run: seq<Action>, limit: int)
    requires Exclusive(c, s) && CountsKnown(c, s)
    requires Run(c, s, run) && TimelyRun(c, s, run, limit) && limit <= c.Threshold()
    requires |s.agents| <= 1 || c.maxAttempts <= 2
    ensures Exclusive(c, After(c, s, run)) && CountsKnown(c, After(c, s, run)) && NoCountFalls(s, After(c, s, run))
    decreases run
  {
    if run != [] {
      SafeStep(c, s, run[0]);
      CountsStep(c, s, run[0]);
      CountsRun(c, Apply(c, s, run[0]), run[1..], limit);
    }
  }

  /** Between any two moments of the run, no count falls. */
  ghost predicate CountsOnlyGrow(c: Config, s: System, run: seq<Action>)
    requires WellFormed(s) && Run(c, s, run)
  {
    forall k :: 0 <= k <= |run| && Run(c, s, run[..k]) ==> NoCountFalls(After(c, s, run[..k]), After(c, s, run))
  }

  /** Counts only grow in every timely run of `n` workers that start at rest. */
  ghost predicate AlwaysGrow(c: Config, n: nat) {
    forall s: System, run: seq<Action> ::
      |s.agents| == n && AtRest(s) && WellFormed(s) && Run(c, s, run) && TimelyRun(c, s, run, c.Threshold()) ==>
        CountsOnlyGrow(c, s, run)
  }

  /** One worker reads, claims and fails row 0. */
  lemma FailOnce(c: Config, s: System, run: seq<Action>, w: nat) returns (run': seq<Action>)
    requires WellFormed(s) && Run(c, s, run) && TimelyRun(c, s, run, c.Threshold())
    requires var t := After(c, s, run);
             w < |t.agents| && t.agents[w].Idle? && |t.rows| == 1 && t.rows[0].status == PENDING
             && t.rows[0].attemptCount + 1 < c.maxAttempts
             && (forall v :: 0 <= v < |t.agents| ==> !t.agents[v].Holding?)
    ensures WellFormed(s) && Run(c, s, run') && TimelyRun(c, s, run', c.Threshold())
    ensures var t, t' := After(c, s, run), After(c, s, run');
            t'.agents == t.agents && |t'.rows| == 1 && t'.rows[0].status == PENDING
            && t'.rows[0].attemptCount == t.rows[0].attemptCount + 1
  {
    hide Run, After, TimelyRun;
    var t := After(c, s, run);
    RunSnoc(c, s, run, Poll(w, Some(0)), c.Threshold());
    run' := run + [Poll(w, Some(0))];
    RunSnoc(c, s, run', Claim(w), c.Threshold());
    run' := run' + [Claim(w)];
    RunSnoc(c, s, run', Settle(w, Retry("no reply")), c.Threshold());
    run' := run' + [Settle(w, Retry("no reply"))];
    assert After(c, s, run').agents == t.agents;
  }

  /** Worker 0 reads count 0, and then worker 1 fails twice and leaves count 2. */
  lemma StaleReader(c: Config, n: nat) returns (s: System, run: seq<Action>)
    requires n >= 2 && c.maxAttempts >= 3
    ensures |s.agents| == n && AtRest(s) && WellFormed(s) && Run(c, s, run) && TimelyRun(c, s, run, c.Threshold())
    ensures var t := After(c, s, run);
            t.agents == s.agents[0 := Chose(0, 0)] && |t.rows| == 1
            && t.rows[0].status == PENDING && t.rows[0].attemptCount == 2
  {
    s := System(0, [Submission("c", "r", PENDING, None, 0, None, 0, 0)], seq(n, _ => Idle), []);
    run := [];
    RunNil(c, s, c.Threshold());
    hide Run, After, TimelyRun;
    RunSnoc(c, s, run, Poll(0, Some(0)), c.Threshold());
    run := run + [Poll(0, Some(0))];
    run := FailOnce(c, s, run, 1);
    run := FailOnce(c, s, run, 1);
  }

  /** With two workers and three attempts: the stale reader claims, fails, and writes 1. */
  lemma CountCanFall(c: Config, n: nat) returns (s: System, run: seq<Action>, k: nat)
    requires n >= 2 && c.maxAttempts >= 3
    ensures |s.agents| == n && AtRest(s) && WellFormed(s)
    ensures Run(c, s, run) && TimelyRun(c, s, run, c.Threshold()) && k <= |run| && Run(c, s, run[..k])
    ensures !NoCountFalls(After(c, s, run[..k]), After(c, s, run))
  {
    s, run := StaleReader(c, n);
    hide Run, After, TimelyRun;
    RunSnoc(c, s, run, Claim(0), c.Threshold());
    var before := run + [Claim(0)];
    k := |before|;
    RunSnoc(c, s, before, Settle(0, Retry("no reply")), c.Threshold());
    run := before + [Settle(0, Retry("no reply"))];
    assert run[..k] == before;
    assert After(c, s, before).rows[0].attemptCount == 2 && After(c, s, run).rows[0].attemptCount == 1;
  }

  /** Attempt counts only grow exactly with at most one worker or at most two attempts. */
  lemma CountsGrowExactly(c: Config, n: nat)
    ensures AlwaysGrow(c, n) <==> n <= 1 || c.maxAttempts <= 2
  {
    hide Run, After, TimelyRun, NoCountFalls;
    if n <= 1 || c.maxAttempts <= 2 {
      forall s: System, run: seq<Action> |
        |s.agents| == n && AtRest(s) && WellFormed(s) && Run(c, s, run) && TimelyRun(c, s, run, c.Threshold())
        ensures CountsOnlyGrow(c, s, run)
      {
        forall k | 0 <= k <= |run| && Run(c, s, run[..k])
          ensures NoCountFalls(After(c, s, run[..k]), After(c, s, run))
        {
          RunPrefix(c, s, run, k, c.Threshold());
          CountsRun(c, s, run[..k], c.Threshold());
          CountsRun(c, After(c, s, run[..k]), run[k..], c.Threshold());
        }
      }
    } else {
      var s, run, k := CountCanFall(c, n);
      assert !CountsOnlyGrow(c, s, run);
    }
  }
}
