/**
 When a row is claimed no more often than it may be attempted.

 A lone worker knows the current count of the row that it works on, however often it crashes, so
 each claim uses up an attempt of the row or one of its recoveries.  With more workers this holds
 only if a row can be attempted once.
 */
module ProtocolAttempts {
  import opened Wrappers
  import opened Submissions
  import opened WorkerProtocol
  import opened ProtocolSafety
  import opened ProtocolTermination
  import opened ProtocolPosts

  /** The attempts that a fresh row is allowed: the first is made even if maxAttempts is 0. */
  function Allowed(c: Config): nat {
    if c.maxAttempts == 0 then 1 else c.maxAttempts
  }

  /** What a lone worker remembers of a row is current, and the row is its own while it holds it. */
  predicate Current(s: System)
    requires WellFormed(s)
  {
    forall w :: 0 <= w < |s.agents| && (s.agents[w].Chose? || s.agents[w].Holding?) ==>
      var row := s.rows[s.agents[w].id];
      s.agents[w].count == row.attemptCount && (s.agents[w].Holding? ==> row.status == PROCESSING)
  }

  /** Claims that a row can still get without being recovered. */
  function Remaining(c: Config, s: System, id: nat): nat {
    if id >= |s.rows| then Allowed(c)
    else
      var row := s.rows[id];
      match row.status
      case PENDING => if row.attemptCount < c.maxAttempts then c.maxAttempts - row.attemptCount else 1
      case PROCESSING => if row.attemptCount + 1 < c.maxAttempts then c.maxAttempts - row.attemptCount - 1 else 0
      case _ => 0
  }

  lemma CurrentStep(c: Config, s: System, a: Action)
    requires WellFormed(s) && Current(s) && |s.agents| <= 1 && Enabled(s, a)
    ensures Current(Apply(c, s, a))
  {
  }

  /** One action: a claim takes one from what remains, a recovery gives one back, and nothing else adds. */
  lemma RemainingStep(c: Config, s: System, a: Action, id: nat)
    requires WellFormed(s) && Enabled(s, a)
    requires (|s.agents| <= 1 && Current(s)) || c.maxAttempts <= 1
    ensures Remaining(c, Apply(c, s, a), id) + (if Claims(s, a, id) then 1 else 0)
            <= Remaining(c, s, id) + (if Recovers(s, a, id) then 1 else 0)
  {
  }

  /** For every run of a lone worker, crashes and restarts included: each claim is paid for by an attempt or a recovery. */
  lemma {:induction false} AttemptsArePaidFor(c: Config, s: System, run: seq<Action>, id: nat)
    requires WellFormed(s) && Run(c, s, run)
    requires (|s.agents| <= 1 && Current(s)) || c.maxAttempts <= 1
    ensures ClaimCount(c, s, run, id) + Remaining(c, After(c, s, run), id)
            <= Remaining(c, s, id) + RecoverCount(c, s, run, id)
    decreases run
  {
    if run != [] {
      hide Remaining;
      RemainingStep(c, s, run[0], id);
      if |s.agents| <= 1 && Current(s) {
        CurrentStep(c, s, run[0]);
      }
      hide Current;
      AttemptsArePaidFor(c, Apply(c, s, run[0]), run[1..], id);
    }
  }

  /** A lone worker claims, and POSTs, a row enqueued during the run at most maxAttempts times, and once more for each recovery. */
  lemma AttemptsOfFreshRow(c: Config, s: System, run: seq<Action>, id: nat)
    requires WellFormed(s) && Run(c, s, run) && |s.rows| <= id
    requires (|s.agents| <= 1 && AtRest(s)) || c.maxAttempts <= 1
    ensures ClaimCount(c, s, run, id) <= Allowed(c) + RecoverCount(c, s, run, id)
    ensures PostsTo(After(c, s, run).wire, id) <= Allowed(c) + RecoverCount(c, s, run, id)
  {
    AttemptsArePaidFor(c, s, run, id);
    PostsOfFreshRow(c, s, run, id);
  }

  // ---------------------------------------------------------------- and no other number of workers

  /** `n` crash-free workers never claim a row enqueued in the run more often than it may be attempted. */
  ghost predicate NeverOverclaimed(c: Config, n: nat) {
    forall s: System, run: seq<Action>, id: nat ::
      |s.agents| == n && AtRest(s) && WellFormed(s) && Run(c, s, run) && CrashFree(run) && |s.rows| <= id ==>
        ClaimCount(c, s, run, id) <= Allowed(c)
  }

  /** A crash-free run that starts with `n` idle workers and no rows, and has claimed row 0 so often. */
  ghost predicate Makes(c: Config, n: nat, run: seq<Action>, claims: nat) {
    Run(c, Empty(n), run) && CrashFree(run) && ClaimCount(c, Empty(n), run, 0) == claims
  }

  function Empty(n: nat): (s: System)
    ensures WellFormed(s) && AtRest(s)
  {
    System(0, [], seq(n, _ => Idle), [])
  }

  ghost function Made(c: Config, n: nat, run: seq<Action>, claims: nat): (t: System)
    requires Makes(c, n, run, claims)
    ensures WellFormed(t) && |t.agents| == n
  {
    After(c, Empty(n), run)
  }

  lemma {:induction false} ClaimSnoc(c: Config, s: System, run: seq<Action>, a: Action, id: nat)
    requires WellFormed(s) && Run(c, s, run) && Enabled(After(c, s, run), a)
    ensures Run(c, s, run + [a]) && After(c, s, run + [a]) == Apply(c, After(c, s, run), a)
    ensures ClaimCount(c, s, run + [a], id)
            == ClaimCount(c, s, run, id) + (if Claims(After(c, s, run), a, id) then 1 else 0)
    decreases run
  {
    if run == [] {
      assert [] + [a] == [a] && [a][1..] == [];
    } else {
      assert (run + [a])[1..] == run[1..] + [a];
      ClaimSnoc(c, Apply(c, s, run[0]), run[1..], a, id);
    }
  }

  lemma Step(c: Config, n: nat, run: seq<Action>, m: nat, a: Action) returns (run': seq<Action>, m': nat)
    requires Makes(c, n, run, m) && Enabled(Made(c, n, run, m), a) && !a.Crash? && !a.Boot? && !a.Recover?
    ensures m' == m + (if Claims(Made(c, n, run, m), a, 0) then 1 else 0)
    ensures Makes(c, n, run', m') && Made(c, n, run', m') == Apply(c, Made(c, n, run, m), a)
  {
    ClaimSnoc(c, Empty(n), run, a, 0);
    run' := run + [a];
    m' := m + (if Claims(Made(c, n, run, m), a, 0) then 1 else 0);
  }

  /** Worker `w` reads row 0 and fails it once. */
  lemma FailOnce(c: Config, n: nat, run: seq<Action>, m: nat, w: nat) returns (run': seq<Action>)
    requires Makes(c, n, run, m)
    requires var t := Made(c, n, run, m);
             w < n && t.agents[w].Idle? && |t.rows| == 1 && t.rows[0].status == PENDING
    ensures Makes(c, n, run', m + 1)
    ensures var t, t' := Made(c, n, run, m), Made(c, n, run', m + 1);
            t'.agents == t.agents && |t'.rows| == 1 && t'.rows[0].attemptCount == t.rows[0].attemptCount + 1
            && (t'.rows[0].status == PENDING <==> t.rows[0].attemptCount + 1 < c.maxAttempts)
  {
    hide Makes, Made;
    var p: nat;
    run', p := Step(c, n, run, m, Poll(w, Some(0)));
    run', p := Step(c, n, run', p, Claim(w));
    run', p := Step(c, n, run', p, Settle(w, Retry("no reply")));
    assert Made(c, n, run', p).agents == Made(c, n, run, m).agents;
  }

  /** Worker `w` fails row 0 until no attempt is left. */
  lemma {:induction false} FailToEnd(c: Config, n: nat, run: seq<Action>, m: nat, w: nat)
    returns (run': seq<Action>, m': nat)
    requires Makes(c, n, run, m)
    requires var t := Made(c, n, run, m);
             w < n && t.agents[w].Idle? && |t.rows| == 1 && t.rows[0].status == PENDING
             && t.rows[0].attemptCount < c.maxAttempts
    ensures m' == m + c.maxAttempts - Made(c, n, run, m).rows[0].attemptCount && Makes(c, n, run', m')
    decreases c.maxAttempts - Made(c, n, run, m).rows[0].attemptCount
  {
    hide Makes, Made;
    run' := FailOnce(c, n, run, m, w);
    m' := m + 1;
    if Made(c, n, run, m).rows[0].attemptCount + 1 < c.maxAttempts {
      run', m' := FailToEnd(c, n, run', m', w);
    }
  }

  /** Worker 0 reads count 0, and then worker 1 fails the row. */
  lemma StaleReader(c: Config, n: nat) returns (run: seq<Action>)
    requires n >= 2 && c.maxAttempts >= 2
    ensures Makes(c, n, run, 1)
    ensures var t := Made(c, n, run, 1);
            t.agents[0] == Chose(0, 0) && |t.rows| == 1 && t.rows[0].status == PENDING && t.rows[0].attemptCount == 1
  {
    run := [];
    assert Makes(c, n, run, 0) && Made(c, n, run, 0) == Empty(n);
    hide Makes, Made;
    var m: nat;
    run, m := Step(c, n, run, 0, Enqueue(Submission("c", "r", PENDING, None, 0, None, 0, 0)));
    run, m := Step(c, n, run, m, Poll(0, Some(0)));
    run := FailOnce(c, n, run, m, 1);
  }

  /** Worker 0 claims it, fails it, and writes count 1 again. */
  lemma WastedClaim(c: Config, n: nat) returns (run: seq<Action>)
    requires n >= 2 && c.maxAttempts >= 2
    ensures Makes(c, n, run, 2)
    ensures var t := Made(c, n, run, 2);
            t.agents[0].Idle? && |t.rows| == 1 && t.rows[0].status == PENDING && t.rows[0].attemptCount == 1
  {
    run := StaleReader(c, n);
    hide Makes, Made;
    var m: nat;
    run, m := Step(c, n, run, 1, Claim(0));
    run, m := Step(c, n, run, m, Settle(0, Retry("no reply")));
  }

  /** With two workers and two attempts, a row is claimed once more than it may be attempted. */
  lemma Overclaimed(c: Config, n: nat) returns (run: seq<Action>)
    requires n >= 2 && c.maxAttempts >= 2
    ensures Makes(c, n, run, c.maxAttempts + 1)
  {
    run := WastedClaim(c, n);
    var m: nat;
    run, m := FailToEnd(c, n, run, 2, 0);
  }

  /** Claims stay within the allowed attempts exactly with at most one worker or one attempt. */
  lemma NeverOverclaimedExactly(c: Config, n: nat)
    ensures NeverOverclaimed(c, n) <==> n <= 1 || c.maxAttempts <= 1
  {
    if n <= 1 || c.maxAttempts <= 1 {
      forall s: System, run: seq<Action>, id: nat |
        |s.agents| == n && AtRest(s) && WellFormed(s) && Run(c, s, run) && CrashFree(run) && |s.rows| <= id
        ensures ClaimCount(c, s, run, id) <= Allowed(c)
      {
        AttemptsOfFreshRow(c, s, run, id);
        NoRecoveries(c, s, run, id);
      }
    } else {
      var run := Overclaimed(c, n);
      assert |Empty(n).agents| == n && |Empty(n).rows| <= 0;
    }
  }
}
