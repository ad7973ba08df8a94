/**
 Any number of workers over one submission table, interleaved at every database call.

 A worker reads the oldest pending row, claims it with a conditional update, may POST it to an
 adapter, and settles it with the attempt count it read before the claim.  Workers may crash at any point; a restarted worker
 computes a deadline and later returns the rows left in PROCESSING since before it to PENDING.
 */
module WorkerProtocol {
  import opened Wrappers
  import opened Submissions

  datatype Config = Config(maxAttempts: nat, staleMs: nat) {
    /** `Math.max(60_000, staleMs)`. */
    function Threshold(): nat {
      if staleMs < 60_000 then 60_000 else staleMs
    }
  }

  datatype Agent =
    | Idle
    | Chose(id: nat, count: nat)                    // has read row `id`, not claimed it yet
    | Holding(id: nat, count: nat, since: int, answer: Option<bool>)
                                                    // has claimed row `id`; `answer`: whether its POST was ok
    | Down
    | Starting(deadline: int)                       // before its stale reset

  datatype System = System(now: int, rows: seq<Submission>, agents: seq<Agent>, wire: seq<Post>)

  datatype Action =
    | Enqueue(row: Submission)
    | Tick(to: int)
    | Poll(w: nat, pick: Option<nat>)
    | Claim(w: nat)
    | Send(w: nat, ok: bool)
    | Settle(w: nat, verdict: Verdict)
    | Crash(w: nat)
    | Boot(w: nat)
    | Recover(w: nat)

  /** Every worker that knows a row knows one that exists, and only such rows have been POSTed. */
  predicate WellFormed(s: System) {
    (forall w :: 0 <= w < |s.agents| && (s.agents[w].Chose? || s.agents[w].Holding?) ==> s.agents[w].id < |s.rows|)
    && forall i :: 0 <= i < |s.wire| ==> s.wire[i].id < |s.rows|
  }

  /** After a POST only its answer decides how the row is settled (see `PostDecides`). */
  predicate Follows(v: Verdict, answer: Option<bool>) {
    match answer
    case None => true
    case Some(true) => v == Sent
    case Some(false) => v.Retry?
  }

  ghost predicate Enabled(s: System, a: Action) {
    match a
    case Enqueue(row) => Fresh(row)
    case Tick(to) => s.now <= to
    case Poll(w, pick) => w < |s.agents| && s.agents[w].Idle? && OldestPending(s.rows, pick)
    case Claim(w) => w < |s.agents| && s.agents[w].Chose?
    case Send(w, _) => w < |s.agents| && s.agents[w].Holding? && s.agents[w].answer == None
    case Settle(w, v) => w < |s.agents| && s.agents[w].Holding? && Follows(v, s.agents[w].answer)
    case Crash(w) => w < |s.agents| && !s.agents[w].Down?
    case Boot(w) => w < |s.agents| && s.agents[w].Down?
    case Recover(w) => w < |s.agents| && s.agents[w].Starting?
  }

  /** The row a claim takes, when the conditional update finds it still pending. */
  ghost predicate Claims(s: System, a: Action, id: nat) {
    a.Claim? && a.w < |s.agents| && s.agents[a.w].Chose? && s.agents[a.w].id == id
    && id < |s.rows| && s.rows[id].status == PENDING
  }

  ghost function Apply(c: Config, s: System, a: Action): (t: System)
    requires WellFormed(s) && Enabled(s, a)
    ensures WellFormed(t) && |t.agents| == |s.agents| && |t.rows| >= |s.rows|
  {
    match a
    case Enqueue(row) => s.(rows := s.rows + [row])
    case Tick(to) => s.(now := to)
    case Poll(w, None) => s
    case Poll(w, Some(id)) => s.(agents := s.agents[w := Chose(id, s.rows[id].attemptCount)])
    case Claim(w) =>
      var id := s.agents[w].id;
      if s.rows[id].status == PENDING then
        s.(rows := s.rows[id := Claimed(s.rows[id], s.now)],
           agents := s.agents[w := Holding(id, s.agents[w].count, s.now, None)])
      else
        s.(agents := s.agents[w := Idle])
    case Send(w, ok) =>
      s.(wire := s.wire + [Post(s.agents[w].id, ok)], agents := s.agents[w := s.agents[w].(answer := Some(ok))])
    case Settle(w, v) =>
      var id := s.agents[w].id;
      s.(rows := s.rows[id := Settled(s.rows[id], v, s.agents[w].count, c.maxAttempts, s.now)],
         agents := s.agents[w := Idle])
    case Crash(w) => s.(agents := s.agents[w := Down])
    case Boot(w) => s.(agents := s.agents[w := Starting(s.now - c.Threshold())])
    case Recover(w) =>
      s.(rows := RecoveredTable(s.rows, s.agents[w].deadline, s.now), agents := s.agents[w := Idle])
  }

  /** The actions can be taken one after the other from `s`. */
  ghost predicate Run(c: Config, s: System, run: seq<Action>)
    requires WellFormed(s)
    decreases run
  {
    run == [] || (Enabled(s, run[0]) && Run(c, Apply(c, s, run[0]), run[1..]))
  }

  /** The state after a run. */
  ghost function After(c: Config, s: System, run: seq<Action>): (t: System)
    requires WellFormed(s) && Run(c, s, run)
    ensures WellFormed(t) && |t.rows| >= |s.rows| && |t.agents| == |s.agents|
    decreases run
  {
    if run == [] then s else After(c, Apply(c, s, run[0]), run[1..])
  }

  predicate CrashFree(run: seq<Action>) {
    forall i :: 0 <= i < |run| ==> !run[i].Crash? && !run[i].Boot? && !run[i].Recover?
  }
}
