/**
 How many ok answers a row gets, and what is settled when the workers come to rest.

 A worker that crashes between an ok answer and its settling write leaves a row that is recovered
 and POSTed again.  So a row may get more than one ok answer, but no more than one for each time it
 was enqueued or recovered: claims hand over the right to one ok answer, they never make a new one.
 */
module ProtocolPosts {
  import opened Wrappers
  import opened Submissions
  import opened WorkerProtocol
  import opened ProtocolSafety
  import opened ProtocolTermination

  /** The claim may still bring an ok answer; it may still bring a POST. */
  predicate NotOk(answer: Option<bool>) {
    answer != Some(true)
  }

  predicate Unanswered(answer: Option<bool>) {
    answer == None
  }

  /** Whether the worker holds a claim on row `id` that is open in this sense. */
  function OpenClaim(a: Agent, id: nat, open: Option<bool> -> bool): nat {
    if a.Holding? && a.id == id && open(a.answer) then 1 else 0
  }

  /** Such claims among the first `n` workers. */
  function OpenClaims(agents: seq<Agent>, id: nat, n: nat, open: Option<bool> -> bool): nat
    requires n <= |agents|
  {
    if n == 0 then 0 else OpenClaims(agents, id, n - 1, open) + OpenClaim(agents[n - 1], id, open)
  }

  /** The ok answers of a row, and those that it can still get without being recovered again. */
  function OkBudget(s: System, id: nat): nat {
    if id < |s.rows| then
      OksFor(s.wire, id) + OpenClaims(s.agents, id, |s.agents|, NotOk) + (if s.rows[id].status == PENDING then 1 else 0)
    else 1
  }

  lemma {:induction false} OpenClaimsUpdate(
    agents: seq<Agent>, id: nat, w: nat, a: Agent, n: nat, open: Option<bool> -> bool)
    requires w < |agents| && n <= |agents|
    ensures OpenClaims(agents[w := a], id, n, open) + (if w < n then OpenClaim(agents[w], id, open) else 0)
            == OpenClaims(agents, id, n, open) + (if w < n then OpenClaim(a, id, open) else 0)
  {
    if n > 0 {
      OpenClaimsUpdate(agents, id, w, a, n - 1, open);
    }
  }

  lemma {:induction false} NoOpenClaims(agents: seq<Agent>, id: nat, n: nat, open: Option<bool> -> bool)
    requires n <= |agents| && forall w :: 0 <= w < n ==> agents[w].Holding? ==> agents[w].id != id
    ensures OpenClaims(agents, id, n, open) == 0
  {
    if n > 0 {
      NoOpenClaims(agents, id, n - 1, open);
    }
  }

  lemma WireSnoc(wire: seq<Post>, p: Post, id: nat)
    ensures OksFor(wire + [p], id) == OksFor(wire, id) + (if p.id == id && p.ok then 1 else 0)
    ensures PostsTo(wire + [p], id) == PostsTo(wire, id) + (if p.id == id then 1 else 0)
  {
    assert (wire + [p])[..|wire|] == wire;
  }

  /** The action's effect on one worker: every action changes at most one. */
  function Actor(a: Action): Option<nat> {
    match a
    case Enqueue(_) => None
    case Tick(_) => None
    case Poll(w, _) => Some(w)
    case Claim(w) => Some(w)
    case Send(w, _) => Some(w)
    case Settle(w, _) => Some(w)
    case Crash(w) => Some(w)
    case Boot(w) => Some(w)
    case Recover(w) => Some(w)
  }

  lemma OneActor(c: Config, s: System, a: Action)
    requires WellFormed(s) && Enabled(s, a)
    ensures var t := Apply(c, s, a);
            t.agents == if Actor(a).Some? then s.agents[Actor(a).value := t.agents[Actor(a).value]] else s.agents
    ensures Actor(a).Some? ==> Actor(a).value < |s.agents|
  {
  }

  /** One action: a stale reset of the row adds one to its budget, and nothing else adds to it. */
  lemma BudgetOfStep(c: Config, s: System, a: Action, id: nat)
    requires WellFormed(s) && Enabled(s, a)
    ensures OkBudget(Apply(c, s, a), id) <= OkBudget(s, id) + (if Recovers(s, a, id) then 1 else 0)
  {
    var t := Apply(c, s, a);
    if id >= |s.rows| {
      if id < |t.rows| {
        NoPostsYet(s.wire, id);
        NoOpenClaims(s.agents, id, |s.agents|, NotOk);
      }
    } else {
      OneActor(c, s, a);
      hide OksFor, OpenClaims, OldestPending;
      if a.Send? {
        WireSnoc(s.wire, Post(s.agents[a.w].id, a.ok), id);
      }
      if Actor(a).Some? {
        OpenClaimsUpdate(s.agents, id, Actor(a).value, t.agents[Actor(a).value], |s.agents|, NotOk);
      }
    }
  }

  /** For every run of any number of workers, timely or not: ok answers are paid for by recoveries. */
  lemma {:induction false} OksArePaidFor(c: Config, s: System, run: seq<Action>, id: nat)
    requires WellFormed(s) && Run(c, s, run)
    ensures OkBudget(After(c, s, run), id) <= OkBudget(s, id) + RecoverCount(c, s, run, id)
    decreases run
  {
    if run != [] {
      hide OkBudget;
      BudgetOfStep(c, s, run[0], id);
      OksArePaidFor(c, Apply(c, s, run[0]), run[1..], id);
    }
  }

  /** A row enqueued during the run gets at most one ok answer, and one more for each time it is recovered. */
  lemma OksOfFreshRow(c: Config, s: System, run: seq<Action>, id: nat)
    requires WellFormed(s) && Run(c, s, run) && |s.rows| <= id
    ensures OksFor(After(c, s, run).wire, id) <= 1 + RecoverCount(c, s, run, id)
    ensures CrashFree(run) ==> OksFor(After(c, s, run).wire, id) <= 1
  {
    var t := After(c, s, run);
    OksArePaidFor(c, s, run, id);
    if id >= |t.rows| {
      NoPostsYet(t.wire, id);
    }
    if CrashFree(run) {
      NoRecoveries(c, s, run, id);
    }
  }

  // ---------------------------------------------------------------- all POSTs

  /** The POSTs of a row, and those that the workers holding it may still send. */
  function PostBudget(s: System, id: nat): nat {
    PostsTo(s.wire, id) + OpenClaims(s.agents, id, |s.agents|, Unanswered)
  }

  /** One action: a claim of the row adds one to its budget, and nothing else adds to it. */
  lemma PostBudgetOfStep(c: Config, s: System, a: Action, id: nat)
    requires WellFormed(s) && Enabled(s, a)
    ensures PostBudget(Apply(c, s, a), id) <= PostBudget(s, id) + (if Claims(s, a, id) then 1 else 0)
  {
    var t := Apply(c, s, a);
    OneActor(c, s, a);
    hide PostsTo, OpenClaims, OldestPending;
    if a.Send? {
      WireSnoc(s.wire, Post(s.agents[a.w].id, a.ok), id);
    }
    if Actor(a).Some? {
      OpenClaimsUpdate(s.agents, id, Actor(a).value, t.agents[Actor(a).value], |s.agents|, Unanswered);
    }
  }

  /** For every run of any number of workers: each POST of a row is paid for by a claim of it. */
  lemma {:induction false} PostsArePaidFor(c: Config, s: System, run: seq<Action>, id: nat)
    requires WellFormed(s) && Run(c, s, run)
    ensures PostBudget(After(c, s, run), id) <= PostBudget(s, id) + ClaimCount(c, s, run, id)
    decreases run
  {
    if run != [] {
      hide PostBudget;
      PostBudgetOfStep(c, s, run[0], id);
      PostsArePaidFor(c, Apply(c, s, run[0]), run[1..], id);
    }
  }

  /** A row enqueued during the run gets no more POSTs than claims; without crashes W * (W + 1)^maxAttempts at most. */
  lemma PostsOfFreshRow(c: Config, s: System, run: seq<Action>, id: nat)
    requires WellFormed(s) && Run(c, s, run) && |s.rows| <= id
    ensures PostsTo(After(c, s, run).wire, id) <= ClaimCount(c, s, run, id)
    ensures CrashFree(run) && |s.agents| > 0 ==>
              PostsTo(After(c, s, run).wire, id) <= |s.agents| * Pow(|s.agents| + 1, c.maxAttempts)
  {
    PostsArePaidFor(c, s, run, id);
    NoPostsYet(s.wire, id);
    NoOpenClaims(s.agents, id, |s.agents|, Unanswered);
    if CrashFree(run) && |s.agents| > 0 {
      ClaimsOfFreshRow(c, s, run, id);
    }
  }

  // ---------------------------------------------------------------- the bound is exact

  lemma {:induction false} RecoverSnoc(c: Config, s: System, run: seq<Action>, a: Action, id: nat)
    requires WellFormed(s) && Run(c, s, run) && Run(c, s, run + [a])
    ensures RecoverCount(c, s, run + [a], id)
            == RecoverCount(c, s, run, id) + (if Recovers(After(c, s, run), a, id) then 1 else 0)
    decreases run
  {
    if run == [] {
      assert [] + [a] == [a] && [a][1..] == [];
    } else {
      assert (run + [a])[1..] == run[1..] + [a];
      RecoverSnoc(c, Apply(c, s, run[0]), run[1..], a, id);
    }
  }

  /** A timely run of one worker, started at rest on an empty table: where it has got to, and how often row 0 was recovered. */
  ghost predicate Leads(c: Config, run: seq<Action>, t: System, recoveries: nat) {
    var s := System(0, [], [Idle], []);
    Run(c, s, run) && TimelyRun(c, s, run, c.Threshold()) && After(c, s, run) == t
    && RecoverCount(c, s, run, 0) == recoveries
  }

  lemma Then(c: Config, run: seq<Action>, t: System, n: nat, a: Action) returns (run': seq<Action>)
    requires WellFormed(t) && Leads(c, run, t, n) && Enabled(t, a) && Timely(Apply(c, t, a), c.Threshold())
    ensures run' == run + [a]
    ensures Leads(c, run', Apply(c, t, a), n + (if Recovers(t, a, 0) then 1 else 0))
  {
    var s := System(0, [], [Idle], []);
    RunSnoc(c, s, run, a, c.Threshold());
    RecoverSnoc(c, s, run, a, 0);
    run' := run + [a];
  }

  /** Row 0 of the example: `pending` since `at`, or claimed at that time. */
  function RowAt(pending: bool, at: int): Submission {
    Submission("c", "r", if pending then PENDING else PROCESSING, None, 0, None, 0, at)
  }

  /** The worker claims the row, POSTs it and gets an ok answer. */
  lemma PostOnce(c: Config, run: seq<Action>, at: int, wire: seq<Post>, n: nat) returns (run': seq<Action>)
    requires WellFormed(System(at, [RowAt(true, at)], [Idle], wire))
    requires Leads(c, run, System(at, [RowAt(true, at)], [Idle], wire), n)
    ensures Leads(c, run', System(at, [RowAt(false, at)], [Holding(0, 0, at, Some(true))], wire + [Post(0, true)]), n)
  {
    hide Leads;
    var row, claimed := RowAt(true, at), RowAt(false, at);
    run' := Then(c, run, System(at, [row], [Idle], wire), n, Poll(0, Some(0)));
    assert [Idle][0 := Chose(0, 0)] == [Chose(0, 0)];
    run' := Then(c, run', System(at, [row], [Chose(0, 0)], wire), n, Claim(0));
    assert [row][0 := claimed] == [claimed];
    assert [Chose(0, 0)][0 := Holding(0, 0, at, None)] == [Holding(0, 0, at, None)];
    run' := Then(c, run', System(at, [claimed], [Holding(0, 0, at, None)], wire), n, Send(0, true));
    assert [Holding(0, 0, at, None)][0 := Holding(0, 0, at, Some(true))] == [Holding(0, 0, at, Some(true))];
  }

  /** It crashes before it settles the row, and is restarted late enough to recover it. */
  lemma CrashOnce(c: Config, run: seq<Action>, at: int, wire: seq<Post>, n: nat) returns (run': seq<Action>)
    requires var t := System(at, [RowAt(false, at)], [Holding(0, 0, at, Some(true))], wire);
             WellFormed(t) && Leads(c, run, t, n)
    ensures var late := at + c.Threshold() + 1;
            Leads(c, run', System(late, [RowAt(true, late)], [Idle], wire), n + 1)
  {
    hide Leads;
    var late := at + c.Threshold() + 1;
    var held := Holding(0, 0, at, Some(true));
    run' := Then(c, run, System(at, [RowAt(false, at)], [held], wire), n, Crash(0));
    assert [held][0 := Down] == [Down];
    run' := Then(c, run', System(at, [RowAt(false, at)], [Down], wire), n, Tick(late));
    run' := Then(c, run', System(late, [RowAt(false, at)], [Down], wire), n, Boot(0));
    assert [Down][0 := Starting(at + 1)] == [Starting(at + 1)];
    assert RecoveredTable([RowAt(false, at)], at + 1, late) == [RowAt(true, late)];
    run' := Then(c, run', System(late, [RowAt(false, at)], [Starting(at + 1)], wire), n, Recover(0));
    assert [Starting(at + 1)][0 := Idle] == [Idle];
  }

  /** For every number of recoveries, a timely run in which each is followed by another ok answer. */
  lemma {:induction false} EachRecoveryMayPostAgain(c: Config, n: nat)
    returns (run: seq<Action>, at: int, wire: seq<Post>)
    ensures forall i :: 0 <= i < |wire| ==> wire[i].id == 0
    ensures OksFor(wire, 0) == n + 1
    ensures Leads(c, run, System(at, [RowAt(false, at)], [Holding(0, 0, at, Some(true))], wire), n)
  {
    if n == 0 {
      var start := System(0, [], [Idle], []);
      RunNil(c, start, c.Threshold());
      run := Then(c, [], start, 0, Enqueue(RowAt(true, 0)));
      at, wire := 0, [];
    } else {
      var before, claimedAt, sent := EachRecoveryMayPostAgain(c, n - 1);
      run := CrashOnce(c, before, claimedAt, sent, n - 1);
      at, wire := claimedAt + c.Threshold() + 1, sent;
    }
    run := PostOnce(c, run, at, wire, n);
    WireSnoc(wire, Post(0, true), 0);
    wire := wire + [Post(0, true)];
  }

  /** Rows enqueued in timely runs with `n` recoveries get at most `k` ok answers. */
  ghost predicate AtMostOks(c: Config, n: nat, k: nat) {
    forall s: System, run: seq<Action>, id: nat ::
      AtRest(s) && WellFormed(s) && Run(c, s, run) && TimelyRun(c, s, run, c.Threshold())
      && |s.rows| <= id && RecoverCount(c, s, run, id) == n ==>
        OksFor(After(c, s, run).wire, id) <= k
  }

  /** One ok answer more than recoveries is the exact bound: without recoveries an ok answer is not repeated. */
  lemma OksExactly(c: Config, n: nat, k: nat)
    ensures AtMostOks(c, n, k) <==> k >= n + 1
  {
    if k >= n + 1 {
      forall s: System, run: seq<Action>, id: nat |
        AtRest(s) && WellFormed(s) && Run(c, s, run) && TimelyRun(c, s, run, c.Threshold())
        && |s.rows| <= id && RecoverCount(c, s, run, id) == n
        ensures OksFor(After(c, s, run).wire, id) <= k
      {
        OksOfFreshRow(c, s, run, id);
      }
    } else {
      var run, at, wire := EachRecoveryMayPostAgain(c, n);
      var s := System(0, [], [Idle], []);
      assert AtRest(s) && WellFormed(s) && OksFor(After(c, s, run).wire, 0) == n + 1;
    }
  }

  // ---------------------------------------------------------------- at rest

  predicate Holds(s: System, w: nat, id: nat) {
    w < |s.agents| && s.agents[w].Holding? && s.agents[w].id == id
  }

  /** Every row in PROCESSING is held by a worker. */
  ghost predicate NoOrphans(s: System) {
    forall id :: 0 <= id < |s.rows| && s.rows[id].status == PROCESSING ==> exists w: nat :: Holds(s, w, id)
  }

  /** Every row with an ok answer is MOCK_SENT, or held by the worker that got the answer. */
  ghost predicate OksAreSent(s: System) {
    forall id :: 0 <= id < |s.rows| && OksFor(s.wire, id) > 0 ==>
      s.rows[id].status == MOCK_SENT || exists w: nat :: Holds(s, w, id) && s.agents[w].answer == Some(true)
  }

  lemma OrphansStep(c: Config, s: System, a: Action)
    requires Exclusive(c, s) && NoOrphans(s) && Enabled(s, a) && !a.Crash? && !a.Recover?
    ensures NoOrphans(Apply(c, s, a))
  {
    var t := Apply(c, s, a);
    forall id | 0 <= id < |t.rows| && t.rows[id].status == PROCESSING ensures exists w: nat :: Holds(t, w, id) {
      if Claims(s, a, id) {
        assert Holds(t, a.w, id);
      } else {
        var w: nat :| Holds(s, w, id);
        assert Holds(t, w, id);
      }
    }
  }

  lemma OksAreSentStep(c: Config, s: System, a: Action)
    requires Exclusive(c, s) && OksAreSent(s) && Enabled(s, a) && !a.Crash? && !a.Recover?
    ensures OksAreSent(Apply(c, s, a))
  {
    var t := Apply(c, s, a);
    forall id | 0 <= id < |t.rows| && OksFor(t.wire, id) > 0
      ensures t.rows[id].status == MOCK_SENT || exists w: nat :: Holds(t, w, id) && t.agents[w].answer == Some(true)
    {
      OkStep(c, s, a, id);
    }
  }

  /** A worker that got an ok answer keeps its row until it settles it as sent. */
  lemma HolderStays(c: Config, s: System, a: Action, w: nat, id: nat)
    requires Exclusive(c, s) && Enabled(s, a) && !a.Crash? && !a.Recover?
    requires Holds(s, w, id) && s.agents[w].answer == Some(true)
    ensures var t := Apply(c, s, a);
            if a.Settle? && a.w == w then t.rows[id].status == MOCK_SENT
            else Holds(t, w, id) && t.agents[w].answer == Some(true)
  {
    OneActor(c, s, a);
    hide OldestPending, RecoveredTable, Exclusive;
  }

  lemma OkStep(c: Config, s: System, a: Action, id: nat)
    requires Exclusive(c, s) && OksAreSent(s) && Enabled(s, a) && !a.Crash? && !a.Recover?
    requires id < |Apply(c, s, a).rows| && OksFor(Apply(c, s, a).wire, id) > 0
    ensures var t := Apply(c, s, a);
            t.rows[id].status == MOCK_SENT || exists w: nat :: Holds(t, w, id) && t.agents[w].answer == Some(true)
  {
    var t := Apply(c, s, a);
    if id >= |s.rows| {
      NoPostsYet(s.wire, id);
    } else if a.Send? && a.ok && s.agents[a.w].id == id {
      assert Holds(t, a.w, id);
    } else {
      if a.Send? {
        WireSnoc(s.wire, Post(s.agents[a.w].id, a.ok), id);
      }
      if s.rows[id].status != MOCK_SENT {
        var w: nat :| Holds(s, w, id) && s.agents[w].answer == Some(true);
        HolderStays(c, s, a, w, id);
      } else {
        SafeStep(c, s, a);
      }
    }
  }

  lemma {:induction false} NoOrphansAfter(c: Config, s: System, run: seq<Action>)
    requires Exclusive(c, s) && NoOrphans(s) && Run(c, s, run) && CrashFree(run)
    ensures Exclusive(c, After(c, s, run)) && NoOrphans(After(c, s, run))
    decreases run
  {
    if run != [] {
      assert !run[0].Recover? && !run[0].Crash?;
      SafeStep(c, s, run[0]);
      OrphansStep(c, s, run[0]);
      assert forall i :: 0 <= i < |run| - 1 ==> run[1..][i] == run[i + 1];
      hide NoOrphans, Exclusive;
      NoOrphansAfter(c, Apply(c, s, run[0]), run[1..]);
    }
  }

  lemma {:induction false} OksAreSentAfter(c: Config, s: System, run: seq<Action>)
    requires Exclusive(c, s) && OksAreSent(s) && Run(c, s, run) && CrashFree(run)
    ensures OksAreSent(After(c, s, run))
    decreases run
  {
    if run != [] {
      assert !run[0].Recover? && !run[0].Crash?;
      SafeStep(c, s, run[0]);
      OksAreSentStep(c, s, run[0]);
      assert forall i :: 0 <= i < |run| - 1 ==> run[1..][i] == run[i + 1];
      hide OksAreSent, Exclusive;
      OksAreSentAfter(c, Apply(c, s, run[0]), run[1..]);
    }
  }

  /** In crash-free runs of any number of workers, every row in PROCESSING is held by exactly one. */
  lemma OneHolderExactly(c: Config, s: System, run: seq<Action>, id: nat)
    requires Exclusive(c, s) && NoOrphans(s) && Run(c, s, run) && CrashFree(run)
    ensures var t := After(c, s, run);
            id < |t.rows| ==>
              (t.rows[id].status == PROCESSING <==> exists w: nat :: Holds(t, w, id))
              && forall v: nat, w: nat :: Holds(t, v, id) && Holds(t, w, id) ==> v == w
  {
    NoOrphansAfter(c, s, run);
    hide After, Run;
  }

  /** When crash-free workers come to rest with nothing pending, every row is settled, and those with an ok answer are MOCK_SENT. */
  lemma RestIsSettled(c: Config, s: System, run: seq<Action>)
    requires Exclusive(c, s) && NoOrphans(s) && OksAreSent(s) && Run(c, s, run) && CrashFree(run)
    requires AtRest(After(c, s, run)) && OldestPending(After(c, s, run).rows, None)
    ensures var t := After(c, s, run);
            forall id :: 0 <= id < |t.rows| ==>
              Terminal(t.rows[id].status) && (OksFor(t.wire, id) > 0 ==> t.rows[id].status == MOCK_SENT)
  {
    var t := After(c, s, run);
    NoOrphansAfter(c, s, run);
    OksAreSentAfter(c, s, run);
    hide After, Run;
    forall id | 0 <= id < |t.rows|
      ensures Terminal(t.rows[id].status) && (OksFor(t.wire, id) > 0 ==> t.rows[id].status == MOCK_SENT)
    {
      assert forall w: nat :: !Holds(t, w, id);
    }
  }
}
