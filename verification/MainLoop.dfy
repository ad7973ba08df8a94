/**
 The worker's main loop: work while there is work, otherwise purge, check the cron triggers and sleep.
 `Iterated` specifies one iteration, and the lemmas after it say what whole runs of the loop keep.
 */
module MainLoop {
  import opened Wrappers
  import opened Submissions
  import opened SingleWorker
  import opened CronTriggers
  import opened CargosWorker
  import opened Retention

  const TRIGGERS: nat := 4
  const CHUNK_MS: nat := 200

  datatype Settings = Settings(maxAttempts: nat, purgeBatch: nat, idleMs: nat, triggers: seq<Trigger>)

  /** What the environment does in one iteration. */
  datatype Iteration = Iteration(
    arrivals: seq<Submission>,         // rows enqueued before the turn
    turn: Turn,
    uploaded: map<nat, Document>,      // new documents, before the purge, and the keys of new blobs
    stored: set<string>,
    purgeAt: int,                      // the purge: its time, what its query returns, and the answers
    batch: seq<nat>,
    answers: seq<Answer>,
    clocks: seq<int>,                  // the clock at each trigger's check
    stop: Option<nat>)                 // shutdown: the chunk of the sleep from which on the loop may not run

  /** Everything that the loop works on; `slept` has the length of each sleep. */
  datatype Process = Process(
    queue: Queue, store: Store, purged: nat, ticks: seq<int>, posts: seq<seq<int>>, slept: seq<nat>)

  function Arrive(p: Process, it: Iteration): Queue {
    p.queue.(rows := p.queue.rows + it.arrivals)
  }

  function Uploaded(p: Process, it: Iteration): Store {
    Store(p.store.docs + it.uploaded, p.store.blobs + it.stored)
  }

  function Turned(c: Settings, p: Process, it: Iteration): (Queue, Outcome)
    requires it.turn.pick.Some? ==> it.turn.pick.value < |Arrive(p, it).rows|
  {
    TakeTurn(Arrive(p, it), it.turn, c.maxAttempts)
  }

  /** The environment's answers fit the tables. */
  ghost predicate Feasible(c: Settings, p: Process, it: Iteration) {
    && OldestPending(Arrive(p, it).rows, it.turn.pick)
    && it.uploaded.Keys !! p.store.docs.Keys
    && IsBatch(Uploaded(p, it).docs, it.purgeAt, c.purgeBatch, it.batch) && |it.answers| == |it.batch|
    && |it.clocks| == |p.ticks| == |p.posts| == |c.triggers| == TRIGGERS
  }

  function Purged(c: Settings, st: Store, it: Iteration): (Store, nat)
    requires |it.batch| == |it.answers| && Distinct(it.batch) && AllIn(it.batch, st.docs)
  {
    if c.purgeBatch < 1 then (st, 0)
    else
      var (after, r) := Purge(st, it.batch, it.answers);
      (after, Reported(r))
  }

  /** How long a sleep of `total` lasts that is interrupted at the given chunk. */
  function SleepOf(total: nat, stop: Option<nat>): (ms: nat)
    ensures ms <= total && (stop == None ==> ms == total) && (stop.Some? ==> ms <= 200 * stop.value)
  {
    if stop.Some? && stop.value * CHUNK_MS < total then stop.value * CHUNK_MS else total
  }

  /** The ticks after one check of each trigger, and the calls made. */
  function TicksAfter(c: Settings, ticks: seq<int>, clocks: seq<int>): (r: seq<int>)
    requires |c.triggers| == |ticks| == |clocks| == TRIGGERS
    ensures |r| == TRIGGERS
  {
    seq(TRIGGERS, k requires 0 <= k < TRIGGERS => LastFiring(c.triggers[k], ticks[k], [clocks[k]]))
  }

  function PostsAfter(c: Settings, ticks: seq<int>, posts: seq<seq<int>>, clocks: seq<int>): (r: seq<seq<int>>)
    requires |c.triggers| == |ticks| == |posts| == |clocks| == TRIGGERS
    ensures |r| == TRIGGERS
  {
    seq(TRIGGERS, k requires 0 <= k < TRIGGERS => posts[k] + Firings(c.triggers[k], ticks[k], [clocks[k]]))
  }

  /** One iteration. */
  ghost function Iterated(c: Settings, p: Process, it: Iteration): (Process, Outcome)
    requires Feasible(c, p, it)
  {
    var (queue, outcome) := Turned(c, p, it);
    if outcome != Idle then (p.(queue := queue, store := Uploaded(p, it)), outcome)
    else
      var (store, n) := Purged(c, Uploaded(p, it), it);
      (Process(
         queue, store, p.purged + n,
         TicksAfter(c, p.ticks, it.clocks), PostsAfter(c, p.ticks, p.posts, it.clocks),
         p.slept + [SleepOf(c.idleMs, it.stop)]),
       Idle)
  }

  /** An exception or a shutdown ends the process. */
  predicate Ends(outcome: Outcome, it: Iteration) {
    outcome.Escaped? || it.stop.Some?
  }

  ghost predicate Script(c: Settings, p: Process, script: seq<Iteration>)
    decreases script
  {
    script == []
    || (Feasible(c, p, script[0])
        && var (p', outcome) := Iterated(c, p, script[0]);
           if Ends(outcome, script[0]) then |script| == 1 else Script(c, p', script[1..]))
  }

  ghost function ProcessAfter(c: Settings, p: Process, script: seq<Iteration>): Process
    requires Script(c, p, script)
    decreases script
  {
    if script == [] then p
    else
      var (p', outcome) := Iterated(c, p, script[0]);
      if Ends(outcome, script[0]) then p' else ProcessAfter(c, p', script[1..])
  }

  /** Sleeps in chunks, and stops at the first chunk boundary where the process is no longer running. */
  method SleepInterruptible(totalMs: nat, chunkMs: nat, isRunning: nat -> bool) returns (slept: nat, chunks: nat)
    requires chunkMs > 0
    ensures slept == if totalMs <= chunks * chunkMs then totalMs else chunks * chunkMs
    ensures forall i: nat :: i < chunks ==> isRunning(i)
    ensures slept < totalMs ==> !isRunning(chunks)
    ensures chunks > 0 ==> (chunks - 1) * chunkMs < totalMs
  {
    var left := totalMs;
    slept, chunks := 0, 0;
    while left > 0 && isRunning(chunks)
      invariant slept + left == totalMs && 0 <= left
      invariant left > 0 ==> slept == chunks * chunkMs
      invariant left == 0 ==> totalMs <= chunks * chunkMs
      invariant chunks > 0 ==> (chunks - 1) * chunkMs < totalMs
      invariant forall i: nat :: i < chunks ==> isRunning(i)
      decreases left
    {
      var step := if chunkMs < left then chunkMs else left;
      assert (chunks + 1) * chunkMs == chunks * chunkMs + chunkMs;
      slept := slept + step;
      left := left - step;
      chunks := chunks + 1;
    }
  }

  /** A sleep that runs until the chunk of the shutdown lasts as `SleepOf` says. */
  lemma SleepLength(total: nat, stop: Option<nat>, slept: nat, chunks: nat)
    requires slept == if total <= chunks * CHUNK_MS then total else chunks * CHUNK_MS
    requires stop.Some? ==> chunks <= stop.value
    requires slept < total ==> stop.Some? && chunks >= stop.value
    ensures slept == SleepOf(total, stop)
  {
    if stop.Some? {
      assert chunks * CHUNK_MS <= stop.value * CHUNK_MS;
    }
  }

  class Loop {
    const worker: Worker
    const janitor: Janitor
    const settings: Settings
    var lastTick: seq<int>
    var posts: seq<seq<int>>     // the times at which each cron route was called
    var slept: seq<nat>

    ghost predicate Valid()
      reads this
    {
      |settings.triggers| == |lastTick| == |posts| == TRIGGERS && worker.maxAttempts == settings.maxAttempts
    }

    ghost function View(): Process
      reads this, worker, janitor
    {
      Process(worker.View(), janitor.View(), janitor.sessionRetentionPurged, lastTick, posts, slept)
    }

    constructor (worker: Worker, janitor: Janitor, settings: Settings)
      requires |settings.triggers| == TRIGGERS && worker.maxAttempts == settings.maxAttempts
      ensures Valid() && this.worker == worker && this.janitor == janitor && this.settings == settings
      ensures lastTick == [0, 0, 0, 0] && posts == [[], [], [], []] && slept == []
    {
      this.worker := worker;
      this.janitor := janitor;
      this.settings := settings;
      lastTick := [0, 0, 0, 0];
      posts := [[], [], [], []];
      slept := [];
    }

    /** One of the four throttled calls. */
    method MaybeTrigger(k: nat, now: int)
      requires Valid() && k < TRIGGERS
      modifies this`lastTick, this`posts
      ensures Valid()
      ensures var fires := Fires(settings.triggers[k], old(lastTick)[k], now);
              lastTick == (if fires then old(lastTick)[k := now] else old(lastTick))
              && posts == (if fires then old(posts)[k := old(posts)[k] + [now]] else old(posts))
    {
      if settings.triggers[k].interval < 1 {
        return;
      }
      var secret := if settings.triggers[k].secret.Some? then Text.Trim(settings.triggers[k].secret.value) else "";
      if secret == "" || |secret| < 16 {
        return;
      }
      if now - lastTick[k] < settings.triggers[k].interval {
        return;
      }
      lastTick := lastTick[k := now];
      posts := posts[k := posts[k] + [now]];
    }

    /** The triggers of an idle iteration, in their order in the loop. */
    method CheckTriggers(clocks: seq<int>)
      requires Valid() && |clocks| == TRIGGERS
      modifies this`lastTick, this`posts
      ensures Valid()
      ensures forall k :: 0 <= k < TRIGGERS ==>
                lastTick[k] == LastFiring(settings.triggers[k], old(lastTick)[k], [clocks[k]])
                && posts[k] == old(posts)[k] + Firings(settings.triggers[k], old(lastTick)[k], [clocks[k]])
    {
      hide Fires, Firings, LastFiring;
      for j := 0 to TRIGGERS
        invariant Valid()
        invariant forall k :: 0 <= k < j ==>
                    lastTick[k] == LastFiring(settings.triggers[k], old(lastTick)[k], [clocks[k]])
                    && posts[k] == old(posts)[k] + Firings(settings.triggers[k], old(lastTick)[k], [clocks[k]])
        invariant forall k :: j <= k < TRIGGERS ==> lastTick[k] == old(lastTick)[k] && posts[k] == old(posts)[k]
      {
        FiringsOfOne(settings.triggers[j], lastTick[j], clocks[j]);
        MaybeTrigger(j, clocks[j]);
      }
    }

    /** What an idle iteration does after its turn: purge, check the triggers, sleep. */
    method Rest(it: Iteration)
      requires Valid() && |it.clocks| == TRIGGERS && |it.answers| == |it.batch|
      requires IsBatch(janitor.docs, it.purgeAt, settings.purgeBatch, it.batch)
      modifies this, janitor
      ensures Valid() && worker.View() == old(worker.View())
      ensures Distinct(it.batch) && AllIn(it.batch, old(janitor.docs))
      ensures janitor.View() == Purged(settings, old(janitor.View()), it).0
      ensures janitor.sessionRetentionPurged
              == old(janitor.sessionRetentionPurged) + Purged(settings, old(janitor.View()), it).1
      ensures lastTick == TicksAfter(settings, old(lastTick), it.clocks)
      ensures posts == PostsAfter(settings, old(lastTick), old(posts), it.clocks)
      ensures slept == old(slept) + [SleepOf(settings.idleMs, it.stop)]
    {
      hide Purge, Firings, LastFiring, ReportsAll, Fires;
      janitor.PurgeOnce(settings.purgeBatch, it.purgeAt, it.batch, it.answers);
      CheckTriggers(it.clocks);
      var isRunning := (i: nat) => it.stop == None || i < it.stop.value;
      var ms, chunks := SleepInterruptible(settings.idleMs, CHUNK_MS, isRunning);
      assert chunks > 0 ==> isRunning(chunks - 1);
      SleepLength(settings.idleMs, it.stop, ms, chunks);
      slept := slept + [ms];
    }

    method Iterate(it: Iteration) returns (outcome: Outcome)
      requires Valid() && Feasible(settings, View(), it)
      modifies this, worker, janitor
      ensures Valid() && (View(), outcome) == Iterated(settings, old(View()), it)
    {
      hide TakeTurn, OldestPending, IsBatch, Purged, Firings, LastFiring, SleepOf;
      worker.rows := worker.rows + it.arrivals;
      janitor.docs, janitor.blobs := janitor.docs + it.uploaded, janitor.blobs + it.stored;
      outcome := worker.ProcessOne(it.turn);
      if outcome == Idle {
        Rest(it);
      }
    }

    /** The loop, over the iterations of a script. */
    method Run(script: seq<Iteration>)
      requires Valid() && Script(settings, View(), script)
      modifies this, worker, janitor
      ensures Valid() && View() == ProcessAfter(settings, old(View()), script)
    {
      hide Iterated, Feasible;
      var run, i := true, 0;
      while run && i < |script|
        invariant 0 <= i <= |script| && Valid()
        invariant if run then Script(settings, View(), script[i..])
                              && ProcessAfter(settings, View(), script[i..]) == ProcessAfter(settings, old(View()), script)
                  else View() == ProcessAfter(settings, old(View()), script)
      {
        assert script[i..][0] == script[i] && script[i..][1..] == script[i + 1..];
        var outcome := Iterate(script[i]);
        if outcome.Escaped? {
          return;
        }
        run := script[i].stop == None;
        i := i + 1;
      }
    }
  }

  // ---------------------------------------------------------------- what an iteration does

  /** While a row is pending, an iteration takes a turn and does nothing else. */
  lemma BusyIteration(c: Settings, p: Process, it: Iteration)
    requires Feasible(c, p, it) && exists i :: 0 <= i < |Arrive(p, it).rows| && Arrive(p, it).rows[i].status == PENDING
    ensures var p' := Iterated(c, p, it).0;
            p'.queue == TakeTurn(Arrive(p, it), it.turn, c.maxAttempts).0
            && p'.store == Uploaded(p, it) && p'.purged == p.purged
            && p'.ticks == p.ticks && p'.posts == p.posts && p'.slept == p.slept
  {
    assert it.turn.pick.Some?;
    TurnIsNotIdle(Arrive(p, it), it.turn, c.maxAttempts);
    hide TakeTurn, OldestPending;
  }

  lemma TurnIsNotIdle(q: Queue, t: Turn, maxAttempts: nat)
    requires t.pick.Some? && t.pick.value < |q.rows|
    ensures TakeTurn(q, t, maxAttempts).1 != Idle
  {
  }

  /** With none pending, it leaves the table, purges if purging is on, checks each trigger once, and sleeps. */
  lemma IdleIteration(c: Settings, p: Process, it: Iteration, k: nat)
    requires Feasible(c, p, it) && forall i :: 0 <= i < |Arrive(p, it).rows| ==> Arrive(p, it).rows[i].status != PENDING
    requires k < TRIGGERS
    ensures var p' := Iterated(c, p, it).0;
            p'.queue == Arrive(p, it)
            && (if c.purgeBatch == 0 then p'.store == Uploaded(p, it) && p'.purged == p.purged
                else var (store, r) := Purge(Uploaded(p, it), it.batch, it.answers);
                     p'.store == store && p'.purged == p.purged + (if r.Ok? then r.value else 0))
            && |p'.ticks| == |p'.posts| == TRIGGERS
            && p'.ticks[k] == (if Fires(c.triggers[k], p.ticks[k], it.clocks[k]) then it.clocks[k] else p.ticks[k])
            && p'.posts[k] == p.posts[k] + (if Fires(c.triggers[k], p.ticks[k], it.clocks[k]) then [it.clocks[k]] else [])
            && |p'.slept| == |p.slept| + 1
  {
    FiringsOfOne(c.triggers[k], p.ticks[k], it.clocks[k]);
    hide Purge, Firings, LastFiring, Fires, SleepOf;
  }

  // ---------------------------------------------------------------- what runs of the loop keep

  /** The times at which trigger `k` is checked: in the iterations whose call found nothing to do. */
  ghost function IdleChecks(c: Settings, p: Process, script: seq<Iteration>, k: nat): seq<int>
    requires Script(c, p, script) && k < TRIGGERS
    decreases script
  {
    if script == [] then []
    else
      var (p', outcome) := Iterated(c, p, script[0]);
      (if outcome == Idle then [script[0].clocks[k]] else [])
      + (if Ends(outcome, script[0]) then [] else IdleChecks(c, p', script[1..], k))
  }

  /** One iteration, before further checks of trigger `k`. */
  lemma CronStep(c: Settings, p: Process, it: Iteration, k: nat, rest: seq<int>)
    requires Feasible(c, p, it) && k < TRIGGERS
    ensures var (p', outcome) := Iterated(c, p, it); var tr := c.triggers[k];
            |p'.posts| == |p'.ticks| == TRIGGERS
            && p'.posts[k] + Firings(tr, p'.ticks[k], rest)
               == p.posts[k] + Firings(tr, p.ticks[k], (if outcome == Idle then [it.clocks[k]] else []) + rest)
  {
    hide Turned, Purged, Firings, LastFiring, OldestPending, IsBatch, SleepOf;
    FiringsOfFirst(c.triggers[k], p.ticks[k], it.clocks[k], rest);
    assert [] + rest == rest;
  }

  /**
   The cron calls that a run makes are exactly the firings among the checks of its idle iterations,
   so an iteration that works on a submission makes none.
   */
  lemma {:induction false} CronCallsAreFirings(c: Settings, p: Process, script: seq<Iteration>, k: nat)
    requires Script(c, p, script) && k < TRIGGERS && |p.posts| == |p.ticks| == |c.triggers| == TRIGGERS
    ensures var last := ProcessAfter(c, p, script);
            |last.posts| == TRIGGERS
            && last.posts[k] == p.posts[k] + Firings(c.triggers[k], p.ticks[k], IdleChecks(c, p, script, k))
    decreases script
  {
    if script == [] {
      FiringsOfNone();
    } else {
      var (p', outcome) := Iterated(c, p, script[0]);
      var rest := if Ends(outcome, script[0]) then [] else IdleChecks(c, p', script[1..], k);
      CronStep(c, p, script[0], k, rest);
      FiringsOfNone();
      hide Iterated, Feasible, Firings;
      if !Ends(outcome, script[0]) {
        CronCallsAreFirings(c, p', script[1..], k);
      }
    }
  }

  /** Documents uploaded in a run. */
  ghost function UploadCount(script: seq<Iteration>): nat {
    if script == [] then 0 else |script[0].uploaded| + UploadCount(script[1..])
  }

  /** In every idle iteration the purge reports all that it removes. */
  ghost predicate AllReported(c: Settings, p: Process, script: seq<Iteration>)
    requires Script(c, p, script)
    decreases script
  {
    script == []
    || (var (p', outcome) := Iterated(c, p, script[0]);
        (outcome == Idle && c.purgeBatch >= 1 ==>
           ReportsAll(Uploaded(p, script[0]).docs, script[0].batch, script[0].answers))
        && (Ends(outcome, script[0]) || AllReported(c, p', script[1..])))
  }

  lemma DocumentsStep(c: Settings, p: Process, it: Iteration)
    requires Feasible(c, p, it)
    ensures var (p', outcome) := Iterated(c, p, it);
            var gone := |p.store.docs| + |it.uploaded| - |p'.store.docs|;
            p'.purged - p.purged <= gone
            && (p'.purged - p.purged == gone <==>
                (outcome == Idle && c.purgeBatch >= 1 ==> ReportsAll(Uploaded(p, it).docs, it.batch, it.answers)))
  {
    var st := Uploaded(p, it);
    assert st.docs.Keys == p.store.docs.Keys + it.uploaded.Keys;
    hide Turned, Firings, LastFiring, OldestPending, Purge, ReportsAll, SleepOf;
    ReportsExactly(st, it.batch, it.answers);
  }

  /**
   Over a run: the session total of purged documents never exceeds the documents that are gone, and
   equals them exactly if every purge reports all that it removes.
   */
  lemma {:induction false} PurgedTotalExactly(c: Settings, p: Process, script: seq<Iteration>)
    requires Script(c, p, script)
    ensures var last := ProcessAfter(c, p, script);
            var gone := |p.store.docs| + UploadCount(script) - |last.store.docs|;
            last.purged - p.purged <= gone && (last.purged - p.purged == gone <==> AllReported(c, p, script))
    decreases script
  {
    if script != [] {
      DocumentsStep(c, p, script[0]);
      hide Iterated, Feasible, ReportsAll;
      var (p', outcome) := Iterated(c, p, script[0]);
      if Ends(outcome, script[0]) {
        assert script[1..] == [];
      } else {
        PurgedTotalExactly(c, p', script[1..]);
      }
    }
  }

  /** The sleeps of a run's idle iterations. */
  ghost function Sleeps(c: Settings, p: Process, script: seq<Iteration>): seq<nat>
    requires Script(c, p, script)
    decreases script
  {
    if script == [] then []
    else
      var (p', outcome) := Iterated(c, p, script[0]);
      (if outcome == Idle then [SleepOf(c.idleMs, script[0].stop)] else [])
      + (if Ends(outcome, script[0]) then [] else Sleeps(c, p', script[1..]))
  }

  /** All but the last are whole sleeps, and the last is no longer. */
  predicate Whole(sleeps: seq<nat>, idleMs: nat) {
    (forall i :: 0 <= i < |sleeps| - 1 ==> sleeps[i] == idleMs) && (sleeps != [] ==> sleeps[|sleeps| - 1] <= idleMs)
  }

  lemma WholeCons(first: seq<nat>, rest: seq<nat>, idleMs: nat)
    requires |first| <= 1 && Whole(rest, idleMs) && Whole(first, idleMs)
    requires first != [] && rest != [] ==> first[0] == idleMs
    ensures Whole(first + rest, idleMs)
  {
  }

  lemma SleepStep(c: Settings, p: Process, it: Iteration)
    requires Feasible(c, p, it)
    ensures var (p', outcome) := Iterated(c, p, it);
            p'.slept == p.slept + (if outcome == Idle then [SleepOf(c.idleMs, it.stop)] else [])
  {
    hide Turned, Purged, TicksAfter, PostsAfter, OldestPending, IsBatch, SleepOf;
  }

  lemma InTurn(a: seq<nat>, b: seq<nat>, c: seq<nat>)
    ensures (a + b) + c == a + (b + c) && b + [] == b
  {
  }

  /** The loop sleeps once an idle iteration. */
  lemma {:induction false} SleepsOfRun(c: Settings, p: Process, script: seq<Iteration>)
    requires Script(c, p, script)
    ensures ProcessAfter(c, p, script).slept == p.slept + Sleeps(c, p, script)
    decreases script
  {
    if script != [] {
      SleepStep(c, p, script[0]);
      hide Iterated, Feasible, SleepOf;
      var (p', outcome) := Iterated(c, p, script[0]);
      var first := if outcome == Idle then [SleepOf(c.idleMs, script[0].stop)] else [];
      if Ends(outcome, script[0]) {
        InTurn(p.slept, first, []);
      } else {
        SleepsOfRun(c, p', script[1..]);
        InTurn(p.slept, first, Sleeps(c, p', script[1..]));
      }
    }
  }

  lemma {:induction false} SleepsWhole(c: Settings, p: Process, script: seq<Iteration>)
    requires Script(c, p, script)
    ensures Whole(Sleeps(c, p, script), c.idleMs)
    decreases script
  {
    if script != [] {
      hide Iterated, Feasible, SleepOf, ProcessAfter;
      var (p', outcome) := Iterated(c, p, script[0]);
      var first := if outcome == Idle then [SleepOf(c.idleMs, script[0].stop)] else [];
      if Ends(outcome, script[0]) {
        assert Sleeps(c, p, script) == first;
      } else {
        SleepsWhole(c, p', script[1..]);
        WholeCons(first, Sleeps(c, p', script[1..]), c.idleMs);
      }
    }
  }

  /** The process sleeps once an idle iteration, and each time but the last of the run for the whole idle time. */
  lemma SleepsAreWhole(c: Settings, p: Process, script: seq<Iteration>)
    requires Script(c, p, script)
    ensures var slept := ProcessAfter(c, p, script).slept;
            slept == p.slept + Sleeps(c, p, script) && Whole(slept[|p.slept|..], c.idleMs)
  {
    SleepsOfRun(c, p, script);
    SleepsWhole(c, p, script);
    hide Sleeps, ProcessAfter, Script;
    assert (p.slept + Sleeps(c, p, script))[|p.slept|..] == Sleeps(c, p, script);
  }
}
